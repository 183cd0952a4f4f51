/**
 * When the stream parser can still make progress, and when it is stuck for good: after complete
 * headers without a length, or on a stream whose first line announces no boundary.
 */
module EventProgress {
  import opened Text
  import opened EventStream

  const LENGTH_ZERO := "content-length:0"

  function LengthZeroBytes(): (b: seq<byte>)
    ensures |b| == 16 && forall k :: 0 <= k < 16 ==> b[k] == LENGTH_ZERO[k] as int && b[k] != 13 && b[k] != 10
  {
    seq(16, k requires 0 <= k < 16 => LENGTH_ZERO[k] as int)
  }

  ghost predicate CanFinish(boundary: seq<byte>, buf: seq<byte>) {
    exists x :: ScanPart(boundary, buf + x).Whole?
  }

  lemma FinishLater(boundary: seq<byte>, buf: seq<byte>, y: seq<byte>)
    requires CanFinish(boundary, buf + y)
    ensures CanFinish(boundary, buf)
  {
    hide ScanPart;
    var x :| ScanPart(boundary, buf + y + x).Whole?;
    assert buf + y + x == buf + (y + x);
  }

  lemma FinishBody(boundary: seq<byte>, buf: seq<byte>)
    requires ScanPart(boundary, buf).OpenBody?
    ensures CanFinish(boundary, buf)
  {
    hide LengthFrom, TypeFrom, Latin1;
    var h := FindHeaders(boundary, buf);
    var missing := h.to + 4 + LengthFrom(Latin1(buf[h.from..h.to]), 0).value;
    var x: seq<byte> := seq(missing, _ => 0);
    FindHeadersStable(boundary, buf, x);
    assert (buf + x)[h.from..h.to] == buf[h.from..h.to];
    assert ScanPart(boundary, buf + x).Whole?;
  }

  lemma {:induction false} LengthFound(h: string, p: nat, at: nat)
    requires p <= at < |h| && NameAt(h, at, LENGTH_NAME)
    requires var q := SkipSpaces(h, at + |LENGTH_NAME|); q < DigitsEnd(h, q)
    ensures LengthFrom(h, p).Some?
    decreases at - p
  {
    hide NameAt, DigitsEnd, SkipSpaces;
    if p < at {
      LengthFound(h, p + 1, at);
    }
  }

  lemma NoBlankLineBefore(buf: seq<byte>, k: nat)
    requires k < |buf| + 16 && !OccursAt(buf, BLANK_LINE, k)
    ensures !OccursAt(buf + (LengthZeroBytes() + BLANK_LINE), BLANK_LINE, k)
  {
    var y := LengthZeroBytes() + BLANK_LINE;
    var all := buf + y;
    if k + 4 <= |buf| {
      OccursAtExtended(buf, y, BLANK_LINE, k);
    } else {
      var e := if k < |buf| then |buf| else k;
      assert all[e] == y[e - |buf|] == LengthZeroBytes()[e - |buf|];
      var window := all[k..k + 4];
      assert window[e - k] == all[e];
      assert window != BLANK_LINE;
    }
  }

  /** Completing open headers with a length and a blank line ends them exactly there. */
  lemma HeadersEnd(boundary: seq<byte>, buf: seq<byte>)
    requires FindHeaders(boundary, buf).NoEnd?
    ensures var h := FindHeaders(boundary, buf + (LengthZeroBytes() + BLANK_LINE));
            h.At? && h.from <= |buf| && h.to == |buf| + 16
  {
    hide LengthZeroBytes;
    var y := LengthZeroBytes() + BLANK_LINE;
    var all, from := buf + y, IndexOf(buf, boundary, 0) + |boundary|;
    IndexOfStable(buf, y, boundary, 0);
    assert all[|buf| + 16..|buf| + 20] == BLANK_LINE;
    assert OccursAt(all, BLANK_LINE, |buf| + 16);
    var to := IndexOf(all, BLANK_LINE, from);
    if to < |buf| + 16 {
      NoBlankLineBefore(buf, to);
    }
  }

  lemma LengthNameEnds(text: string)
    requires 16 <= |text| && text[|text| - 16..] == LENGTH_ZERO
    ensures NameAt(text, |text| - 16, LENGTH_NAME) && text[|text| - 1] == '0'
  {
    var at := |text| - 16;
    var tail := text[at..];
    forall k | 0 <= k < 15 ensures LowerAscii(text[at + k]) == LENGTH_NAME[k] {
      assert tail[k] == text[at + k] == LENGTH_ZERO[k];
    }
    assert tail[15] == LENGTH_ZERO[15];
  }

  lemma EndsInLength(text: string)
    requires 16 <= |text| && text[|text| - 16..] == LENGTH_ZERO
    ensures LengthFrom(text, 0).Some?
  {
    hide LengthFrom, NameAt;
    LengthNameEnds(text);
    LengthFound(text, 0, |text| - 16);
  }

  lemma HeadersEndInLength(boundary: seq<byte>, buf: seq<byte>)
    requires FindHeaders(boundary, buf).NoEnd?
    ensures var all := buf + (LengthZeroBytes() + BLANK_LINE);
            var h := FindHeaders(boundary, all);
            h.At? && LengthFrom(Latin1(all[h.from..h.to]), 0).Some?
  {
    HeadersEnd(boundary, buf);
    hide FindHeaders, LengthFrom;
    var all := buf + (LengthZeroBytes() + BLANK_LINE);
    var h := FindHeaders(boundary, all);
    var text := Latin1(all[h.from..h.to]);
    assert text[|text| - 16..] == LENGTH_ZERO;
    EndsInLength(text);
  }

  lemma FinishHeaders(boundary: seq<byte>, buf: seq<byte>)
    requires ScanPart(boundary, buf).OpenHeaders?
    ensures CanFinish(boundary, buf)
  {
    var y := LengthZeroBytes() + BLANK_LINE;
    var all := buf + y;
    HeadersEndInLength(boundary, buf);
    hide FindHeaders, LengthFrom, TypeFrom, Latin1, LengthZeroBytes;
    assert ScanPart(boundary, all).OpenBody? || ScanPart(boundary, all).Whole?;
    hide ScanPart;
    if ScanPart(boundary, all).OpenBody? {
      FinishBody(boundary, all);
    } else {
      assert all + [] == all;
    }
    FinishLater(boundary, buf, y);
  }

  /** Two bytes of the boundary always leave a third value free. */
  function Other(a: byte, b: byte): (f: byte)
    ensures f != a && f != b
  {
    if a != 0 && b != 0 then 0 else if a != 1 && b != 1 then 1 else 2
  }

  lemma NoBoundaryBefore(boundary: seq<byte>, buf: seq<byte>, filler: seq<byte>, f: byte, k: nat)
    requires boundary != [] && !OccursAt(buf, boundary, k) && k < |buf| + |filler|
    requires |filler| == |boundary| && forall i :: 0 <= i < |filler| ==> filler[i] == f
    requires f != boundary[0] && f != boundary[|boundary| - 1]
    ensures !OccursAt(buf + (filler + boundary), boundary, k)
  {
    var n, y := |boundary|, filler + boundary;
    var all := buf + y;
    var window := all[k..k + n];
    if k + n <= |buf| {
      OccursAtExtended(buf, y, boundary, k);
    } else if k <= |buf| {
      assert window[n - 1] == all[k + n - 1] == filler[k + n - 1 - |buf|];
    } else {
      assert window[0] == all[k] == filler[k - |buf|];
    }
  }

  /** A filler that shares no end with the boundary keeps it from starting early. */
  lemma FillerSeparates(boundary: seq<byte>, buf: seq<byte>, filler: seq<byte>, f: byte)
    requires boundary != [] && IndexOf(buf, boundary, 0) < 0
    requires |filler| == |boundary| && forall i :: 0 <= i < |filler| ==> filler[i] == f
    requires f != boundary[0] && f != boundary[|boundary| - 1]
    ensures IndexOf(buf + (filler + boundary), boundary, 0) == |buf| + |filler|
  {
    var all, at := buf + (filler + boundary), |buf| + |filler|;
    assert all[at..at + |boundary|] == boundary;
    assert OccursAt(all, boundary, at);
    var k := IndexOf(all, boundary, 0);
    if k < at {
      NoBoundaryBefore(boundary, buf, filler, f, k);
    }
  }

  lemma FinishBoundary(boundary: seq<byte>, buf: seq<byte>)
    requires boundary != [] && ScanPart(boundary, buf).NoBoundary?
    ensures CanFinish(boundary, buf)
  {
    var n := |boundary|;
    var f := Other(boundary[0], boundary[n - 1]);
    var filler: seq<byte> := seq(n, _ => f);
    var y := filler + boundary;
    FillerSeparates(boundary, buf, filler, f);
    hide Other, LengthFrom, TypeFrom;
    assert ScanPart(boundary, buf + y).OpenHeaders?;
    hide ScanPart, IndexOf;
    FinishHeaders(boundary, buf + y);
    FinishLater(boundary, buf, y);
  }

  /** The headers of the next part are complete and hold no Content-Length. */
  predicate HeadersWithoutLength(boundary: seq<byte>, buf: seq<byte>) {
    var h := FindHeaders(boundary, buf);
    h.At? && LengthFrom(Latin1(buf[h.from..h.to]), 0).None?
  }

  lemma NoLengthIs(boundary: seq<byte>, buf: seq<byte>)
    ensures ScanPart(boundary, buf).NoLength? <==> HeadersWithoutLength(boundary, buf)
  {
    hide FindHeaders, LengthFrom, TypeFrom, Latin1;
  }

  /**
   * With its boundary known, a part can still come out of a buffer, with the right continuation,
   * if and only if its front is not a set of complete headers without a Content-Length.
   */
  lemma StuckExactlyWithoutLength(boundary: seq<byte>, buf: seq<byte>)
    requires boundary != []
    ensures CanFinish(boundary, buf) <==> !HeadersWithoutLength(boundary, buf)
  {
    hide ScanPart, HeadersWithoutLength;
    NoLengthIs(boundary, buf);
    if ScanPart(boundary, buf).NoLength? {
      forall x ensures !ScanPart(boundary, buf + x).Whole? {
        ScanStable(boundary, buf, x);
      }
    } else {
      match ScanPart(boundary, buf)
      case NoBoundary => FinishBoundary(boundary, buf);
      case OpenHeaders => FinishHeaders(boundary, buf);
      case OpenBody => FinishBody(boundary, buf);
      case Whole(_, _) => assert buf + [] == buf;
    }
  }

  // ---- the whole parser ------------------------------------------------

  /** The bytes make the parser take a part: it keeps less than it was given. */
  predicate Takes(st: State, x: seq<byte>) {
    |Step(st, x).0.buf| < |st.buf| + |x|
  }

  ghost predicate CanTake(st: State) {
    exists x :: Takes(st, x)
  }

  function BoundaryAfter(st: State, x: seq<byte>): Option<seq<byte>> {
    if st.boundary.Some? then st.boundary else Detect(st.buf + x)
  }

  lemma TakesIs(st: State, x: seq<byte>)
    ensures Takes(st, x) <==>
            var b := BoundaryAfter(st, x); b.Some? && ScanPart(b.value, st.buf + x).Whole?
  {
    hide Detect, ScanPart, ConsumeAll;
    var b := BoundaryAfter(st, x);
    if b.Some? {
      TakenIsShorter(b.value, st.buf + x);
    }
  }

  lemma TakenIsShorter(boundary: seq<byte>, buf: seq<byte>)
    ensures |TakeParts(boundary, buf).rest| <= |buf|
    ensures |TakeParts(boundary, buf).rest| < |buf| <==> ScanPart(boundary, buf).Whole?
    decreases |buf|
  {
    var s := ScanPart(boundary, buf);
    hide ScanPart;
    if s.Whole? {
      TakenIsShorter(boundary, s.rest);
    }
  }

  /** What follows the white space at the front. */
  function AfterSpaces(buf: seq<byte>): string {
    var t := Latin1(buf);
    t[SkipSpaces(t, 0)..]
  }

  /** A first line that has not ended can still become a boundary. */
  predicate MayStartBoundary(buf: seq<byte>) {
    var t := AfterSpaces(buf);
    t == "" || t == "-" || StartsWith(t, "--")
  }

  /** The first line, up to the break at `nl`, announces a boundary. */
  predicate AnnouncesBoundary(buf: seq<byte>, nl: nat)
    requires nl <= |buf|
  {
    StartsWith(Trim(Latin1(buf[..nl])), "--")
  }

  /**
   * What the parser needs to go on: with its boundary known, no complete headers without a
   * length at the front; otherwise a first line that announces a boundary, followed by no such
   * headers, or one that has not ended and still can.
   */
  predicate CanGoOn(st: State) {
    if st.boundary.Some? then !HeadersWithoutLength(st.boundary.value, st.buf)
    else
      var nl := IndexOf(st.buf, CRLF, 0);
      if nl < 0 then MayStartBoundary(st.buf)
      else
        && AnnouncesBoundary(st.buf, nl)
        && !HeadersWithoutLength(Utf8.Encode(Trim(Latin1(st.buf[..nl]))), st.buf)
  }

  lemma CanTakeKnown(st: State, boundary: seq<byte>)
    requires st.boundary == Some(boundary) && boundary != []
    ensures CanTake(st) <==> !HeadersWithoutLength(boundary, st.buf)
  {
    hide Takes, HeadersWithoutLength, ScanPart;
    StuckExactlyWithoutLength(boundary, st.buf);
    forall x ensures Takes(st, x) <==> ScanPart(boundary, st.buf + x).Whole? {
      TakesIs(st, x);
    }
    if CanFinish(boundary, st.buf) {
      var x :| ScanPart(boundary, st.buf + x).Whole?;
      assert Takes(st, x);
    }
  }

  lemma CanTakeDetected(st: State, boundary: seq<byte>)
    requires st.boundary.None? && Detect(st.buf) == Some(boundary) && boundary != []
    ensures CanTake(st) <==> !HeadersWithoutLength(boundary, st.buf)
  {
    hide Takes, HeadersWithoutLength, ScanPart, Detect;
    StuckExactlyWithoutLength(boundary, st.buf);
    forall x ensures Takes(st, x) <==> ScanPart(boundary, st.buf + x).Whole? {
      TakesIs(st, x);
      DetectStable(st.buf, x);
    }
    if CanFinish(boundary, st.buf) {
      var x :| ScanPart(boundary, st.buf + x).Whole?;
      assert Takes(st, x);
    }
  }

  /** A first line without two dashes at its front never announces a boundary. */
  lemma NeverDetected(buf: seq<byte>, x: seq<byte>)
    requires IndexOf(buf, CRLF, 0) >= 0 && Detect(buf).None?
    ensures Detect(buf + x).None?
  {
    hide IndexOf, Trim, Latin1, StartsWith;
    IndexOfStable(buf, x, CRLF, 0);
    var nl := IndexOf(buf, CRLF, 0);
    assert (buf + x)[..nl] == buf[..nl];
  }

  lemma FoundAt(buf: seq<byte>, pat: seq<byte>, from: nat, at: nat)
    requires from <= at && OccursAt(buf, pat, at) && forall k :: from <= k < at ==> !OccursAt(buf, pat, k)
    ensures IndexOf(buf, pat, from) == at
  {
  }

  lemma NoBreakBefore(line: seq<byte>, k: nat)
    requires k < |line| && !OccursAt(line, CRLF, k)
    ensures !OccursAt(line + CRLF, CRLF, k)
  {
    var buf := line + CRLF;
    if k + 1 < |line| {
      OccursAtExtended(line, CRLF, CRLF, k);
    } else {
      assert buf[k..k + 2][1] == buf[k + 1] == 13;
    }
  }

  lemma FirstBreak(line: seq<byte>)
    requires IndexOf(line, CRLF, 0) < 0
    ensures IndexOf(line + CRLF, CRLF, 0) == |line|
  {
    var buf := line + CRLF;
    assert buf[|line|..|line| + 2] == CRLF;
    forall k | 0 <= k < |line| ensures !OccursAt(buf, CRLF, k) {
      NoBreakBefore(line, k);
    }
    FoundAt(buf, CRLF, 0, |line|);
    hide IndexOf;
  }

  lemma NoBreakAdded(buf: seq<byte>, dashes: seq<byte>)
    requires IndexOf(buf, CRLF, 0) < 0 && forall k :: 0 <= k < |dashes| ==> dashes[k] == 45
    ensures IndexOf(buf + dashes, CRLF, 0) < 0
  {
    var line := buf + dashes;
    var k := IndexOf(line, CRLF, 0);
    if 0 <= k {
      assert line[k..k + 2][1] == line[k + 1] == 10;
      OccursAtExtended(buf, dashes, CRLF, k);
    }
  }

  /** Right after the break that ends the first line no headers are complete. */
  lemma NoHeadersYet(boundary: seq<byte>, line: seq<byte>)
    requires IndexOf(line, CRLF, 0) < 0
    ensures !HeadersWithoutLength(boundary, line + CRLF)
  {
    hide LengthFrom, IndexOf;
    FirstBreak(line);
    NoBlankLineYet(line + CRLF);
  }

  lemma BlankLineAt(buf: seq<byte>, k: nat)
    requires OccursAt(buf, BLANK_LINE, k)
    ensures k + 4 <= |buf| && OccursAt(buf, CRLF, k) && buf[k] == 13 && buf[k + 2] == 13
  {
    var w := buf[k..k + 4];
    assert buf[k..k + 2] == w[..2];
    assert buf[k] == w[0] && buf[k + 2] == w[2];
  }

  lemma NoBlankLineYet(buf: seq<byte>)
    requires 2 <= |buf| && IndexOf(buf, CRLF, 0) == |buf| - 2
    ensures forall from: nat :: from <= |buf| ==> IndexOf(buf, BLANK_LINE, from) < 0
  {
    forall k: nat ensures !OccursAt(buf, BLANK_LINE, k) {
      if OccursAt(buf, BLANK_LINE, k) {
        BlankLineAt(buf, k);
      }
    }
  }

  /** A line whose text begins, after its spaces, with two dashes is a boundary once it ends. */
  lemma DashesAnnounce(line: seq<byte>)
    requires IndexOf(line, CRLF, 0) < 0 && StartsWith(AfterSpaces(line), "--")
    ensures Detect(line + CRLF).Some? && Detect(line + CRLF).value != []
  {
    var buf, t := line + CRLF, Latin1(line);
    FirstBreak(line);
    assert buf[..|line|] == line;
    TrimKeepsDashes(t);
    var first := Trim(t);
    assert Detect(buf) == Some(Utf8.Encode(first));
    assert first[0] == first[..2][0];
  }

  lemma TrimKeepsDashes(t: string)
    requires StartsWith(t[SkipSpaces(t, 0)..], "--")
    ensures StartsWith(Trim(t), "--")
  {
    var p := SkipSpaces(t, 0);
    var q := BackSpaces(t, |t|);
    assert t[p] == t[p..][..2][0] == '-' && t[p + 1] == t[p..][..2][1] == '-';
    assert p + 2 <= q;
    assert t[p..q][..2] == t[p..][..2];
  }

  /** What to append so that the first line begins with two dashes. */
  function Missing(buf: seq<byte>): (d: seq<byte>)
    ensures forall k :: 0 <= k < |d| ==> d[k] == 45
  {
    var t := AfterSpaces(buf);
    if t == "" then [45, 45] else if t == "-" then [45] else []
  }

  lemma DashesComplete(buf: seq<byte>)
    requires MayStartBoundary(buf)
    ensures StartsWith(AfterSpaces(buf + Missing(buf)), "--")
  {
    var d := Missing(buf);
    var t, u := Latin1(buf), Latin1(buf + d);
    var p := SkipSpaces(t, 0);
    assert forall k :: 0 <= k < |t| ==> u[k] == t[k];
    assert forall k :: |t| <= k < |u| ==> u[k] == '-';
    assert p < |t| ==> t[p..][0] == t[p];
    assert p < |u| && !IsSpace(u[p]);
    assert SkipSpaces(u, 0) == p;
    if StartsWith(t[p..], "--") {
      assert u[p..][..2] == t[p..][..2];
    } else {
      assert u[p..] == "--";
    }
  }

  lemma StartedCanTake(st: State)
    requires st.boundary.None? && IndexOf(st.buf, CRLF, 0) < 0 && MayStartBoundary(st.buf)
    ensures CanTake(st)
  {
    hide Detect, MayStartBoundary, IndexOf, HeadersWithoutLength, AfterSpaces, Takes, CanTake, Missing;
    var line := st.buf + Missing(st.buf);
    NoBreakAdded(st.buf, Missing(st.buf));
    DashesComplete(st.buf);
    DashesAnnounce(line);
    var later := State(line + CRLF, None, st.pending);
    var boundary := Detect(later.buf).value;
    NoHeadersYet(boundary, line);
    CanTakeDetected(later, boundary);
    TakenLater(st, Missing(st.buf) + CRLF, later);
  }

  lemma TakenLater(st: State, y: seq<byte>, later: State)
    requires st.boundary == later.boundary && later.buf == st.buf + y && CanTake(later)
    ensures CanTake(st)
  {
    hide Takes, Detect, ScanPart;
    var x :| Takes(later, x);
    TakesIs(later, x);
    TakesIs(st, y + x);
    assert st.buf + (y + x) == later.buf + x;
  }

  /** A first line that cannot become a boundary never announces one, wherever it ends. */
  lemma OtherLineNeverAnnounces(buf: seq<byte>, x: seq<byte>)
    requires IndexOf(buf, CRLF, 0) < 0 && !MayStartBoundary(buf)
    ensures Detect(buf + x).None?
  {
    var all := buf + x;
    var nl := IndexOf(all, CRLF, 0);
    if 0 <= nl {
      if nl + 2 <= |buf| {
        OccursAtExtended(buf, x, CRLF, nl);
      }
      assert |buf| - 1 <= nl;
      assert all[nl] == all[nl..nl + 2][0] == 13;
      OtherLine(buf, all[..nl]);
    }
  }

  /** `line` is the text so far, or it without its last byte, a return, or more than it. */
  lemma OtherLine(buf: seq<byte>, line: seq<byte>)
    requires !MayStartBoundary(buf) && |buf| - 1 <= |line|
    requires forall k :: 0 <= k < |line| && k < |buf| ==> line[k] == buf[k]
    requires |line| < |buf| ==> buf[|buf| - 1] == 13
    ensures !StartsWith(Trim(Latin1(line)), "--")
  {
    var t, u := Latin1(buf), Latin1(line);
    assert |u| < |t| ==> t[|t| - 1] == '\r' && IsSpace('\r');
    assert forall k :: 0 <= k < |u| && k < |t| ==> u[k] == t[k];
    hide Latin1;
    OtherText(t, u);
  }

  lemma TrimFront(u: string)
    ensures var p := SkipSpaces(u, 0);
            p + |Trim(u)| <= |u| && forall k :: 0 <= k < |Trim(u)| ==> Trim(u)[k] == u[p + k]
  {
    hide IsSpace;
  }

  lemma NotDashes(s: string)
    requires s != "" && s != "-" && !StartsWith(s, "--")
    ensures s[0] != '-' || (2 <= |s| && s[1] != '-')
  {
    if 2 <= |s| {
      assert s[..2] == [s[0], s[1]];
    } else {
      assert s == [s[0]];
    }
  }

  lemma SpacesAgree(t: string, u: string)
    requires |t| - 1 <= |u| && forall k :: 0 <= k < |u| && k < |t| ==> u[k] == t[k]
    requires |u| < |t| ==> t != "" && IsSpace(t[|t| - 1])
    requires SkipSpaces(t, 0) < |t|
    ensures SkipSpaces(u, 0) == SkipSpaces(t, 0) < |u|
  {
    hide IsSpace;
    var p := SkipSpaces(t, 0);
    assert p < |u| && u[p] == t[p];
  }

  lemma OtherText(t: string, u: string)
    requires |t| - 1 <= |u| && forall k :: 0 <= k < |u| && k < |t| ==> u[k] == t[k]
    requires |u| < |t| ==> t != "" && IsSpace(t[|t| - 1])
    requires var s := t[SkipSpaces(t, 0)..]; s != "" && s != "-" && !StartsWith(s, "--")
    ensures !StartsWith(Trim(u), "--")
  {
    hide Trim, IsSpace, SkipSpaces;
    var p := SkipSpaces(t, 0);
    NotDashes(t[p..]);
    SpacesAgree(t, u);
    TrimFront(u);
    assert t[p..][0] == t[p] == u[p];
    assert 2 <= |t[p..]| ==> t[p..][1] == t[p + 1];
    var first := Trim(u);
    assert 2 <= |first| ==> first[..2][0] == u[p] && first[..2][1] == u[p + 1];
  }

  lemma EncodedIsNotEmpty(text: string)
    requires StartsWith(text, "--")
    ensures Utf8.Encode(text) != []
  {
  }

  /**
   * From any state, some continuation makes the parser take a part if and only if it can go on.
   */
  lemma TakesExactly(st: State)
    requires st.boundary != Some([])
    ensures CanTake(st) <==> CanGoOn(st)
  {
    hide CanTake, HeadersWithoutLength, MayStartBoundary, Latin1, Trim;
    if st.boundary.Some? {
      CanTakeKnown(st, st.boundary.value);
    } else {
      var nl := IndexOf(st.buf, CRLF, 0);
      if nl < 0 {
        if MayStartBoundary(st.buf) {
          StartedCanTake(st);
        } else {
          forall x ensures Detect(st.buf + x).None? {
            OtherLineNeverAnnounces(st.buf, x);
          }
          CannotTake(st);
        }
      } else if AnnouncesBoundary(st.buf, nl) {
        EncodedIsNotEmpty(Trim(Latin1(st.buf[..nl])));
        CanTakeDetected(st, Detect(st.buf).value);
      } else {
        forall x ensures Detect(st.buf + x).None? {
          NeverDetected(st.buf, x);
        }
        CannotTake(st);
      }
    }
  }

  lemma CannotTake(st: State)
    requires st.boundary.None? && forall x :: Detect(st.buf + x).None?
    ensures !CanTake(st)
  {
    hide Detect, Takes;
    forall x ensures !Takes(st, x) {
      TakesIs(st, x);
    }
  }

  /** In every state that the parser reaches, a boundary is not empty. */
  lemma BoundaryIsNeverEmpty(st: State, chunk: seq<byte>, name: Option<string>)
    ensures Initial(name).boundary != Some([])
    ensures st.boundary != Some([]) ==> Step(st, chunk).0.boundary != Some([])
  {
    hide TakeParts, ConsumeAll, IndexOf, Latin1, Trim;
    if name.Some? {
      var text := "--" + name.value;
      assert text[..2] == "--";
      EncodedIsNotEmpty(text);
    }
    var buf := st.buf + chunk;
    var nl := IndexOf(buf, CRLF, 0);
    if 0 <= nl && StartsWith(Trim(Latin1(buf[..nl])), "--") {
      EncodedIsNotEmpty(Trim(Latin1(buf[..nl])));
    }
  }

  lemma NeverAnnounced(st: State, x: seq<byte>)
    requires st.boundary.None? && Settled(st) && !CanGoOn(st)
    ensures Detect(st.buf + x).None?
  {
    hide MayStartBoundary, HeadersWithoutLength, IndexOf, Trim, Latin1;
    if IndexOf(st.buf, CRLF, 0) < 0 {
      OtherLineNeverAnnounces(st.buf, x);
    } else {
      NeverDetected(st.buf, x);
    }
  }

  /** Once it cannot go on, the parser only piles up what it gets, whatever comes and however it is cut. */
  lemma StuckIsFinal(st: State, chunks: seq<seq<byte>>)
    requires st.boundary != Some([]) && Settled(st) && !CanGoOn(st)
    ensures Run(st, chunks) == (st.(buf := st.buf + Concat(chunks)), [])
  {
    var x := Concat(chunks);
    ChunkInvariance(st, chunks);
    if st.boundary.None? {
      NeverAnnounced(st, x);
      hide CanGoOn, Detect, Settled;
    } else {
      NoLengthIs(st.boundary.value, st.buf);
      ScanStable(st.boundary.value, st.buf, x);
      hide CanGoOn, Detect, Settled, ScanPart;
      assert ConsumeAll(st.pending, []) == (st.pending, []);
    }
  }

  // ---- concrete streams ------------------------------------------------

  lemma {:induction false} NoNameNoLength(h: string, p: nat)
    requires p <= |h| && forall k :: p <= k <= |h| ==> !NameAt(h, k, LENGTH_NAME)
    ensures LengthFrom(h, p).None?
    decreases |h| - p
  {
    hide NameAt;
    if p < |h| {
      NoNameNoLength(h, p + 1);
    }
  }

  lemma NameEnds(h: string, k: nat)
    requires NameAt(h, k, LENGTH_NAME)
    ensures k + 14 < |h| && h[k + 14] == ':' && LowerAscii(h[k]) == 'c'
  {
    assert LowerAscii(h[k + 14]) == LENGTH_NAME[14];
    assert LowerAscii(h[k + 0]) == LENGTH_NAME[0];
  }

  /** The headers of a part with a type and no length. */
  lemma TypeAloneHasNoLength(h: string)
    requires h == "\r\nContent-Type: text/plain"
    ensures LengthFrom(h, 0).None?
  {
    assert forall j: nat :: j < |h| && h[j] == ':' ==> j == 14;
    forall k: nat | k <= |h| ensures !NameAt(h, k, LENGTH_NAME) {
      if NameAt(h, k, LENGTH_NAME) {
        NameEnds(h, k);
      }
    }
    NoNameNoLength(h, 0);
  }

  /** A stream whose first part has a type and no length jams the parser that knows its boundary. */
  lemma TypeAloneJams(h: string, buf: seq<byte>, pending: Pending)
    requires h == "\r\nContent-Type: text/plain"
    requires buf == [45, 45, 98] + Bytes(h) + BLANK_LINE
    ensures !CanGoOn(State(buf, Some([45, 45, 98]), pending)) && !CanTake(State(buf, Some([45, 45, 98]), pending))
  {
    Latin1Bytes(h);
    hide CanTake, Bytes;
    var b: seq<byte> := [45, 45, 98];
    assert |Bytes(h)| == |Latin1(Bytes(h))| == 26;
    assert buf[0..3] == b && buf[3..29] == Bytes(h) && buf[29..33] == BLANK_LINE;
    FoundAt(buf, b, 0, 0);
    forall k | 3 <= k < 29 ensures !OccursAt(buf, BLANK_LINE, k) {
      NoEarlyBlank(h, buf, k);
    }
    FoundAt(buf, BLANK_LINE, 3, 29);
    assert FindHeaders(b, buf) == At(3, 29);
    TypeAloneHasNoLength(h);
    hide IndexOf, LengthFrom;
    TakesExactly(State(buf, Some(b), pending));
  }

  lemma NoEarlyBlank(h: string, buf: seq<byte>, k: nat)
    requires h == "\r\nContent-Type: text/plain" && |buf| == 33 && 3 <= k < 29
    requires buf[3..29] == Bytes(h) && buf[29] == 13
    ensures !OccursAt(buf, BLANK_LINE, k)
  {
    assert forall j :: 0 <= j < 26 ==> Bytes(h)[j] == h[j] as int;
    assert forall j :: 3 <= j < 29 ==> buf[j] == Bytes(h)[j - 3];
    hide Bytes;
    assert forall j :: 3 <= j < 29 && buf[j] == 13 ==> j == 3;
    assert buf[5] == 67;
    if OccursAt(buf, BLANK_LINE, k) {
      BlankLineAt(buf, k);
    }
  }

  /** A stream that starts with a line break before its first boundary jams the parser that has to read it. */
  lemma LeadingBreakJams(st: State, more: seq<byte>)
    requires st.boundary.None? && st.buf == CRLF + more
    ensures !CanGoOn(st) && !CanTake(st)
  {
    hide CanTake;
    assert st.buf[0..2] == CRLF;
    FoundAt(st.buf, CRLF, 0, 0);
    var none := st.buf[..0];
    assert Latin1(none) == "";
    TakesExactly(st);
  }
}
