/** A stream as the camera writes it, and the proof that the parser reads back what was written. */
module EventWriter {
  import opened Text
  import opened Utf8
  import opened EventText
  import opened EventLines
  import opened EventStream
  import opened EventRuns

  const DASH: byte := 45
  const CT := "\r\nContent-Type: "
  const CL := "\r\nContent-Length: "

  // ---- written parts ---------------------------------------------------

  /** A media type as it stands in a header: no space, colon or semicolon, in lower case. */
  predicate IsMediaType(s: string) {
    s != "" && forall k :: 0 <= k < |s| ==> IsTypeChar(s[k])
  }

  predicate IsTypeChar(c: char) {
    '!' <= c <= '~' && c != ':' && c != ';' && !('A' <= c <= 'Z')
  }

  function HeaderText(part: Part): string {
    CT + part.contentType + CL + Decimal(|part.body|)
  }

  lemma HeaderTextAt(part: Part, k: nat)
    requires IsMediaType(part.contentType)
    ensures var t, d, h := |part.contentType|, Decimal(|part.body|), HeaderText(part);
            && |h| == 34 + t + |d|
            && (k < 16 ==> h[k] == CT[k])
            && (16 <= k < 16 + t ==> h[k] == part.contentType[k - 16])
            && (16 + t <= k < 34 + t ==> h[k] == CL[k - 16 - t])
            && (34 + t <= k < |h| ==> h[k] == d[k - 34 - t])
  {
  }

  lemma HeaderIsAscii(part: Part)
    requires IsMediaType(part.contentType)
    ensures forall k :: 0 <= k < |HeaderText(part)| ==> HeaderText(part)[k] as int < 256
  {
    var h := HeaderText(part);
    forall k | 0 <= k < |h| ensures h[k] as int < 256 {
      HeaderTextAt(part, k);
    }
  }

  function WritePart(boundary: seq<byte>, part: Part): seq<byte>
    requires IsMediaType(part.contentType)
  {
    HeaderIsAscii(part);
    boundary + Bytes(HeaderText(part)) + BLANK_LINE + part.body + CRLF
  }

  function WriteStream(boundary: seq<byte>, parts: seq<Part>): seq<byte>
    requires forall k :: 0 <= k < |parts| ==> IsMediaType(parts[k].contentType)
  {
    if parts == [] then [] else WritePart(boundary, parts[0]) + WriteStream(boundary, parts[1..])
  }

  // ---- reading the headers back ----------------------------------------

  lemma {:induction false} LengthFromLater(h: string, p: nat, q: nat)
    requires p <= q <= |h| && forall k :: p <= k < q ==> !NameAt(h, k, LENGTH_NAME)
    ensures LengthFrom(h, p) == LengthFrom(h, q)
    decreases q - p
  {
    if p < q {
      LengthFromLater(h, p + 1, q);
    }
  }

  lemma NoEarlierLength(part: Part, k: nat)
    requires IsMediaType(part.contentType) && k < 18 + |part.contentType|
    ensures !NameAt(HeaderText(part), k, LENGTH_NAME)
  {
    hide HeaderText;
    var h := HeaderText(part);
    HeaderTextAt(part, 0);
    HeaderTextAt(part, k + 14);
    assert LowerAscii(h[k + 14]) != LENGTH_NAME[14] || LowerAscii(h[k + 0]) != LENGTH_NAME[0];
  }

  lemma LengthNameStands(part: Part)
    requires IsMediaType(part.contentType)
    ensures NameAt(HeaderText(part), 18 + |part.contentType|, LENGTH_NAME)
  {
    hide HeaderText;
    var at := 18 + |part.contentType|;
    HeaderTextAt(part, 0);
    forall k | 0 <= k < 15 ensures LowerAscii(HeaderText(part)[at + k]) == LENGTH_NAME[k] {
      HeaderTextAt(part, at + k);
    }
  }

  lemma LengthDigits(part: Part)
    requires IsMediaType(part.contentType)
    ensures var h, at := HeaderText(part), 34 + |part.contentType|;
            && at < |h| && h[at - 1] == ' ' && !IsSpace(h[at])
            && h[at..|h|] == Decimal(|part.body|)
  {
    var at := 34 + |part.contentType|;
    HeaderTextAt(part, at - 1);
    HeaderTextAt(part, at);
    assert HeaderText(part)[at..] == Decimal(|part.body|);
  }

  /** The length read is the number written. */
  lemma ReadLength(part: Part)
    requires IsMediaType(part.contentType)
    ensures LengthFrom(HeaderText(part), 0) == Some(|part.body|)
  {
    hide HeaderText, NameAt;
    var h, at := HeaderText(part), 18 + |part.contentType|;
    LengthDigits(part);
    forall k | 0 <= k < at ensures !NameAt(h, k, LENGTH_NAME) {
      NoEarlierLength(part, k);
    }
    LengthFromLater(h, 0, at);
    LengthNameStands(part);
    assert SkipSpaces(h, at + 15) == at + 16;
    DigitsEndIs(h, at + 16, |h|);
    DecimalRoundTrip(|part.body|);
  }

  lemma TypeNameStands(part: Part)
    requires IsMediaType(part.contentType)
    ensures var h := HeaderText(part);
            !NameAt(h, 0, TYPE_NAME) && !NameAt(h, 1, TYPE_NAME) && NameAt(h, 2, TYPE_NAME)
  {
    hide HeaderText;
    var h := HeaderText(part);
    HeaderTextAt(part, 0);
    HeaderTextAt(part, 1);
    assert LowerAscii(h[0 + 0]) != TYPE_NAME[0] && LowerAscii(h[1 + 0]) != TYPE_NAME[0];
    forall k | 0 <= k < 13 ensures LowerAscii(h[2 + k]) == TYPE_NAME[k] {
      HeaderTextAt(part, 2 + k);
    }
  }

  lemma TypeText(part: Part)
    requires IsMediaType(part.contentType)
    ensures var h, end := HeaderText(part), 16 + |part.contentType|;
            && end < |h| && h[15] == ' ' && !IsSpace(h[16]) && h[16..end] == part.contentType
            && TypeEnd(h, 16) == end
  {
    var h, end := HeaderText(part), 16 + |part.contentType|;
    HeaderTextAt(part, 15);
    HeaderTextAt(part, 16);
    HeaderTextAt(part, end);
    assert h[16..end] == part.contentType;
    hide HeaderText;
    forall k | 16 <= k < end ensures h[k] != '\r' && h[k] != '\n' && h[k] != ';' {
      HeaderTextAt(part, k);
    }
  }

  /** The type read is the one written. */
  lemma ReadType(part: Part)
    requires IsMediaType(part.contentType)
    ensures TypeFrom(HeaderText(part), 0) == part.contentType
  {
    hide HeaderText, NameAt, TypeEnd;
    var h, end := HeaderText(part), 16 + |part.contentType|;
    TypeNameStands(part);
    TypeText(part);
    assert TypeFrom(h, 0) == TypeFrom(h, 1) == TypeFrom(h, 2);
    assert SkipSpaces(h, 15) == 16;
    assert TypeFrom(h, 2) == LowerText(Trim(h[16..end]));
    TrimOfTrimmed(part.contentType);
    assert LowerText(part.contentType) == part.contentType;
  }

  // ---- reading one part back -------------------------------------------

  /** Between parts there is nothing (at the start) or the line break after a body. */
  predicate IsLead(lead: seq<byte>) {
    lead == [] || lead == CRLF
  }

  lemma FirstByte(boundary: seq<byte>, buf: seq<byte>, k: nat)
    requires StartsWith(boundary, [DASH]) && OccursAt(buf, boundary, k)
    ensures k < |buf| && buf[k] == DASH
  {
    assert boundary[0] == boundary[..1][0] == DASH;
    assert buf[k..k + |boundary|][0] == boundary[0];
  }

  lemma FindBoundary(boundary: seq<byte>, lead: seq<byte>, more: seq<byte>)
    requires StartsWith(boundary, [DASH]) && IsLead(lead)
    ensures IndexOf(lead + boundary + more, boundary, 0) == |lead|
  {
    var buf := lead + boundary + more;
    assert buf[|lead|..|lead| + |boundary|] == boundary;
    assert OccursAt(buf, boundary, |lead|);
    var first := IndexOf(buf, boundary, 0);
    FirstByte(boundary, buf, first);
    assert forall k :: 0 <= k < |lead| ==> buf[k] == lead[k] && lead[k] != DASH;
  }

  lemma NoBlankLineInHeader(part: Part, k: nat, b: seq<byte>)
    requires IsMediaType(part.contentType) && k < |HeaderText(part)| <= |b|
    requires forall i :: 0 <= i < |HeaderText(part)| ==> b[i] == HeaderText(part)[i] as int
    ensures !OccursAt(b, BLANK_LINE, k)
  {
    hide HeaderText;
    if OccursAt(b, BLANK_LINE, k) {
      assert b[k] == b[k..k + 4][0] == 13 && b[k + 2] == b[k..k + 4][2] == 13;
      HeaderTextAt(part, k);
      HeaderTextAt(part, k + 2);
    }
  }

  lemma FindBlankLine(part: Part, before: seq<byte>, more: seq<byte>)
    requires IsMediaType(part.contentType)
    requires forall k :: 0 <= k < |HeaderText(part)| ==> HeaderText(part)[k] as int < 256
    ensures var h := Bytes(HeaderText(part));
            IndexOf(before + h + BLANK_LINE + more, BLANK_LINE, |before|) == |before| + |h|
  {
    hide HeaderText;
    var h := Bytes(HeaderText(part));
    var buf := before + h + BLANK_LINE + more;
    var from, to := |before|, |before| + |h|;
    assert buf[to..to + 4] == BLANK_LINE;
    assert OccursAt(buf, BLANK_LINE, to);
    var b := buf[from..];
    assert b == h + BLANK_LINE + more;
    forall k | from <= k < to ensures !OccursAt(buf, BLANK_LINE, k) {
      NoBlankLineInHeader(part, k - from, b);
      assert b[k - from..k - from + 4] == buf[k..k + 4];
    }
  }

  lemma WrittenShape(boundary: seq<byte>, lead: seq<byte>, part: Part, more: seq<byte>)
    requires IsMediaType(part.contentType)
    requires forall k :: 0 <= k < |HeaderText(part)| ==> HeaderText(part)[k] as int < 256
    ensures var h, n := Bytes(HeaderText(part)), |part.body|;
            var buf := lead + (WritePart(boundary, part) + more);
            var from := |lead| + |boundary|;
            var to := from + |h|;
            && buf == lead + boundary + (h + BLANK_LINE + (part.body + CRLF + more))
            && buf == (lead + boundary) + h + BLANK_LINE + (part.body + CRLF + more)
            && to + 4 + n <= |buf| && buf[from..to] == h
            && buf[to + 4..to + 4 + n] == part.body && buf[to + 4 + n..] == CRLF + more
  {
    hide HeaderText, IsMediaType;
  }

  lemma ScanWritten(boundary: seq<byte>, lead: seq<byte>, part: Part, more: seq<byte>)
    requires StartsWith(boundary, [DASH]) && IsLead(lead) && IsMediaType(part.contentType)
    ensures ScanPart(boundary, lead + (WritePart(boundary, part) + more)) == Whole(part, CRLF + more)
  {
    hide HeaderText, IndexOf, LengthFrom, TypeFrom, Latin1, StartsWith, IsLead, IsMediaType, Bytes, WritePart;
    HeaderIsAscii(part);
    var h := Bytes(HeaderText(part));
    var tail := part.body + CRLF + more;
    WrittenShape(boundary, lead, part, more);
    FindBoundary(boundary, lead, h + BLANK_LINE + tail);
    FindBlankLine(part, lead + boundary, tail);
    var buf := lead + (WritePart(boundary, part) + more);
    assert FindHeaders(boundary, buf) == At(|lead| + |boundary|, |lead| + |boundary| + |h|);
    hide FindHeaders;
    Latin1Bytes(HeaderText(part));
    ReadLength(part);
    ReadType(part);
  }

  lemma TakeOne(boundary: seq<byte>, buf: seq<byte>, part: Part, rest: seq<byte>)
    requires ScanPart(boundary, buf) == Whole(part, rest)
    ensures var more := TakeParts(boundary, rest);
            TakeParts(boundary, buf) == Taken([part] + more.parts, more.rest)
  {
  }

  lemma WriteOne(boundary: seq<byte>, lead: seq<byte>, parts: seq<Part>)
    requires parts != [] && forall k :: 0 <= k < |parts| ==> IsMediaType(parts[k].contentType)
    ensures lead + WriteStream(boundary, parts)
            == lead + (WritePart(boundary, parts[0]) + WriteStream(boundary, parts[1..]))
  {
  }

  /** Every written part is read back, whatever its body holds. */
  lemma {:induction false} TakeWritten(boundary: seq<byte>, lead: seq<byte>, parts: seq<Part>)
    requires StartsWith(boundary, [DASH]) && IsLead(lead)
    requires forall k :: 0 <= k < |parts| ==> IsMediaType(parts[k].contentType)
    ensures TakeParts(boundary, lead + WriteStream(boundary, parts))
            == Taken(parts, if parts == [] then lead else CRLF)
    decreases |parts|
  {
    hide ScanPart, WritePart, StartsWith, IsMediaType;
    if parts == [] {
      NothingInLead(boundary, lead);
      assert lead + WriteStream(boundary, parts) == lead;
    } else {
      hide TakeParts, WriteStream;
      var more := WriteStream(boundary, parts[1..]);
      ScanWritten(boundary, lead, parts[0], more);
      TakeOne(boundary, lead + (WritePart(boundary, parts[0]) + more), parts[0], CRLF + more);
      WriteOne(boundary, lead, parts);
      TakeWritten(boundary, CRLF, parts[1..]);
      assert [parts[0]] + parts[1..] == parts;
    }
  }

  lemma NothingInLead(boundary: seq<byte>, lead: seq<byte>)
    requires StartsWith(boundary, [DASH]) && IsLead(lead)
    ensures !ScanPart(boundary, lead).Whole?
  {
    hide LengthFrom, TypeFrom, Latin1;
    var first := IndexOf(lead, boundary, 0);
    if 0 <= first {
      FirstByte(boundary, lead, first);
    }
  }

  // ---- whole streams ---------------------------------------------------

  /** A boundary name that the first line of a stream can announce. */
  predicate IsPlainName(name: string) {
    && (forall k :: 0 <= k < |name| ==> name[k] as int < 0x80 && name[k] != '\r')
    && (name == "" || !IsSpace(name[|name| - 1]))
  }

  lemma FirstReturn(b: seq<byte>, more: seq<byte>)
    requires forall k :: 0 <= k < |b| ==> b[k] != 13
    ensures IndexOf(b + CRLF + more, CRLF, 0) == |b|
  {
    var buf := b + CRLF + more;
    assert buf[|b|..|b| + 2] == CRLF;
    assert OccursAt(buf, CRLF, |b|);
    var nl := IndexOf(buf, CRLF, 0);
    assert buf[nl] == buf[nl..nl + 2][0] == 13;
    assert forall k :: 0 <= k < |b| ==> buf[k] == b[k];
  }

  lemma DetectWritten(name: string, more: seq<byte>)
    requires IsPlainName(name)
    ensures Detect(Utf8.Encode("--" + name) + CRLF + more) == Some(Utf8.Encode("--" + name))
  {
    var line := "--" + name;
    var b := Utf8.Encode(line);
    EncodeAscii(line);
    var buf := b + CRLF + more;
    hide IndexOf, Utf8.Encode, Trim, IsTrimmed;
    FirstReturn(b, more);
    assert buf[..|b|] == b;
    assert Latin1(b) == line;
    assert line[..2] == "--";
    TrimOfTrimmed(line);
  }

  lemma EncodedDashes(name: string)
    ensures StartsWith(Utf8.Encode("--" + name), [DASH])
  {
    var b := Utf8.Encode("--" + name);
    assert ("--" + name)[0] == '-';
    assert b[0] == DASH;
    hide Utf8.Encode;
    assert b[..1] == [DASH];
  }

  /** The first line of a written stream is its boundary. */
  lemma FirstLine(b: seq<byte>, parts: seq<Part>) returns (more: seq<byte>)
    requires parts != [] && forall k :: 0 <= k < |parts| ==> IsMediaType(parts[k].contentType)
    ensures WriteStream(b, parts) == b + CRLF + more
  {
    HeaderIsAscii(parts[0]);
    var h := Bytes(HeaderText(parts[0]));
    HeaderTextAt(parts[0], 0);
    HeaderTextAt(parts[0], 1);
    hide HeaderText;
    assert h == CRLF + h[2..];
    var rest := WriteStream(b, parts[1..]);
    more := h[2..] + BLANK_LINE + parts[0].body + CRLF + rest;
  }

  lemma BoundaryWritten(name: string, given: bool, parts: seq<Part>)
    requires parts != [] && forall k :: 0 <= k < |parts| ==> IsMediaType(parts[k].contentType)
    requires if given then name != "" else IsPlainName(name)
    ensures var b := Utf8.Encode("--" + name);
            BoundaryOf(if given then Some(name) else None, WriteStream(b, parts)) == Some(b)
  {
    hide Detect, Utf8.Encode, WriteStream;
    if !given {
      var more := FirstLine(Utf8.Encode("--" + name), parts);
      DetectWritten(name, more);
    }
  }

  lemma EmptyStream(name: Option<string>, b: seq<byte>, chunks: seq<seq<byte>>)
    requires Concat(chunks) == WriteStream(b, [])
    ensures Delivered(name, chunks) == Group(Items([]))
  {
    hide Delivered, Concat, Utf8.Encode;
    RunGroupsParts(name, chunks);
    assert Detect([]).None?;
    var boundary := BoundaryOf(name, []);
    if boundary.Some? {
      NothingTaken(boundary.value);
    }
    hide Detect, TakeParts, BoundaryOf;
  }

  lemma NothingTaken(boundary: seq<byte>)
    ensures TakeParts(boundary, []).parts == []
  {
    hide LengthFrom, TypeFrom;
  }

  /**
   * Stream round trip: under any chunking, the parser delivers exactly the grouping of
   * the parts written, whether the boundary was given or had to be read from the stream.
   */
  lemma StreamRoundTrip(name: string, given: bool, parts: seq<Part>, chunks: seq<seq<byte>>)
    requires forall k :: 0 <= k < |parts| ==> IsMediaType(parts[k].contentType)
    requires if given then name != "" else IsPlainName(name)
    requires Concat(chunks) == WriteStream(Utf8.Encode("--" + name), parts)
    ensures Delivered(if given then Some(name) else None, chunks) == Group(Items(parts))
  {
    hide Utf8.Encode, BoundaryOf, Delivered, Group, Items, WriteStream, IsMediaType, IsPlainName, TakeParts, Concat;
    var b := Utf8.Encode("--" + name);
    var stream := Concat(chunks);
    if parts == [] {
      EmptyStream(if given then Some(name) else None, b, chunks);
      return;
    }
    EncodedDashes(name);
    BoundaryWritten(name, given, parts);
    TakeWritten(b, [], parts);
    assert [] + stream == stream;
    RunGroupsParts(if given then Some(name) else None, chunks);
  }

  // ---- what a camera sends ---------------------------------------------

  /**
   * A camera's message: a report with its events (and their fields, lines and line ends as written),
   * a photo, or a heartbeat with white space around it.
   */
  datatype Message =
    | Report(mediaType: string, events: seq<DahuaEvent>, written: seq<seq<Field>>, inks: seq<Ink>, ends: seq<string>)
    | Photo(subtype: string, jpeg: seq<byte>)
    | Heartbeat(mediaType: string, before: string, after: string)

  /** The media types of pictures begin with `image/`; those of texts do not. */
  predicate IsTextType(s: string) {
    IsMediaType(s) && !(6 <= |s| && s[..6] == "image/")
  }

  ghost predicate IsMessage(m: Message) {
    match m
    case Report(mediaType, events, written, inks, ends) =>
      IsTextType(mediaType) && AreWritten(events, written, inks, ends)
    case Photo(subtype, _) => IsMediaType("image/" + subtype)
    case Heartbeat(mediaType, before, after) => IsTextType(mediaType) && AllSpace(before) && AllSpace(after)
  }

  ghost predicate AreMessages(ms: seq<Message>) {
    forall k :: 0 <= k < |ms| ==> IsMessage(ms[k])
  }

  /** The text of a report, as its lines are written. */
  ghost function ReportText(m: Message): string
    requires m.Report? && IsMessage(m)
  {
    Ended(InkedAll(LinesOfAll(m.written), m.inks), m.ends)
  }

  ghost function PartOf(m: Message): (part: Part)
    requires IsMessage(m)
    ensures IsMediaType(part.contentType)
  {
    match m
    case Report(mediaType, _, _, _, _) => Part(mediaType, Utf8.Encode(ReportText(m)))
    case Photo(subtype, jpeg) => Part("image/" + subtype, jpeg)
    case Heartbeat(mediaType, before, after) => Part(mediaType, Utf8.Encode(before + "Heartbeat" + after))
  }

  /** What a message means for the reader. */
  function Meaning(m: Message): seq<Item> {
    match m
    case Report(_, events, _, _, _) => if Kept(events) == [] then [] else [Happened(Kept(events))]
    case Photo(_, jpeg) => [Snapshot(jpeg)]
    case Heartbeat(_, _, _) => []
  }

  ghost function PartsOf(ms: seq<Message>): (parts: seq<Part>)
    requires AreMessages(ms)
    ensures |parts| == |ms| && forall k :: 0 <= k < |parts| ==> IsMediaType(parts[k].contentType)
  {
    seq(|ms|, k requires 0 <= k < |ms| => PartOf(ms[k]))
  }

  function Meanings(ms: seq<Message>): seq<Item> {
    if ms == [] then [] else Meaning(ms[0]) + Meanings(ms[1..])
  }

  lemma NotAHeartbeat(m: Message)
    requires m.Report? && IsMessage(m) && LinesOfAll(m.written) != []
    ensures Trim(ReportText(m)) != "Heartbeat"
  {
    hide Trim, AreEnds, IsInk, LinesOfAll, Lists;
    var text := ReportText(m);
    TrimLeaves(text);
    var a, b :| AllSpace(a) && AllSpace(b) && text == a + Trim(text) + b;
    var texts := InkedAll(LinesOfAll(m.written), m.inks);
    InkHasBracket(LinesOfAll(m.written)[0], m.inks[0]);
    assert text == texts[0] + m.ends[0] + Ended(texts[1..], m.ends[1..]);
    assert '[' in text;
    if Trim(text) == "Heartbeat" {
      BeatHasNoBracket(a, b);
    }
  }

  lemma InkHasBracket(l: Line, ink: Ink)
    ensures '[' in Inked(l, ink)
  {
    assert Inked(l, ink)[|ink.before| + 6] == '[';
  }

  lemma BeatHasNoBracket(a: string, b: string)
    requires AllSpace(a) && AllSpace(b)
    ensures '[' !in a + "Heartbeat" + b
  {
    assert '[' !in a && '[' !in b && '[' !in "Heartbeat";
  }

  lemma ReportItems(m: Message)
    requires m.Report? && IsMessage(m)
    ensures PartEvents(PartOf(m)) == Kept(m.events)
  {
    WrittenEventsComeBack(m.events, m.written, m.inks, m.ends);
    if m.events != [] {
      SomeLines(m);
      NotAHeartbeat(m);
    } else {
      assert Kept(m.events) == [];
    }
    hide EventsOf, ReportText, Utf8.Encode, Utf8.Decode, Kept, IsMessage, Trim;
    Utf8.RoundTrip(ReportText(m));
  }

  lemma SomeLines(m: Message)
    requires m.Report? && IsMessage(m) && m.events != []
    ensures LinesOfAll(m.written) != []
  {
    assert m.written[|m.written| - 1] != [];
  }

  lemma HeartbeatItems(m: Message)
    requires m.Heartbeat? && IsMessage(m)
    ensures PartEvents(PartOf(m)) == []
  {
    hide EventsOf, Utf8.Encode, Utf8.Decode, AllSpace, Trim;
    Utf8.RoundTrip(m.before + "Heartbeat" + m.after);
    TrimPadded(m.before, "Heartbeat", m.after);
  }

  lemma PhotosAreImages(m: Message)
    requires IsMessage(m)
    ensures IsImage(PartOf(m)) <==> m.Photo?
  {
    hide ReportText, Utf8.Encode, AreWritten, IsMediaType;
    if m.Photo? {
      assert ("image/" + m.subtype)[..6] == "image/";
    }
  }

  lemma MessageItems(m: Message)
    requires IsMessage(m)
    ensures ItemsOf(PartOf(m)) == Meaning(m)
  {
    hide PartEvents, IsMediaType, IsImage, ReportText, Utf8.Encode, Kept;
    PhotosAreImages(m);
    if m.Report? {
      ReportItems(m);
    } else if m.Heartbeat? {
      HeartbeatItems(m);
    }
    hide IsMessage;
  }

  lemma {:induction false} MessagesItems(ms: seq<Message>)
    requires AreMessages(ms)
    ensures Items(PartsOf(ms)) == Meanings(ms)
  {
    hide ItemsOf, Meaning, PartOf, IsMessage, IsMediaType;
    if ms != [] {
      MessageItems(ms[0]);
      MessagesItems(ms[1..]);
      assert PartsOf(ms)[1..] == PartsOf(ms[1..]);
    }
  }

  /** From the camera's messages to the delivered blocks, through text, bytes, parts and chunks. */
  lemma CameraToBlocks(name: string, given: bool, ms: seq<Message>, chunks: seq<seq<byte>>)
    requires AreMessages(ms) && Concat(chunks) == WriteStream(Utf8.Encode("--" + name), PartsOf(ms))
    requires if given then name != "" else IsPlainName(name)
    ensures Delivered(if given then Some(name) else None, chunks) == Group(Meanings(ms))
  {
    hide PartOf, Group, Delivered, Meanings, Items, Utf8.Encode, IsMessage;
    StreamRoundTrip(name, given, PartsOf(ms), chunks);
    MessagesItems(ms);
  }
}
