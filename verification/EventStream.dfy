/**
 * The incremental parser of a camera's `multipart/x-mixed-replace` event stream:
 * first as functions on values, then as the class that changes its buffer in place.
 */
module EventStream {
  import opened Text
  import opened Utf8
  import opened EventText

  datatype Block = Block(events: seq<DahuaEvent>, jpeg: Option<seq<byte>>)
  datatype Part = Part(contentType: string, body: seq<byte>)
  type Pending = Option<seq<DahuaEvent>>

  const CRLF: seq<byte> := [13, 10]
  const BLANK_LINE: seq<byte> := [13, 10, 13, 10]
  const LENGTH_NAME := "content-length:"
  const TYPE_NAME := "content-type:"

  // ---- header fields ---------------------------------------------------

  /** `toString('latin1')`: one character a byte. */
  function Latin1(b: seq<byte>): (s: string)
    ensures |s| == |b|
  {
    seq(|b|, k requires 0 <= k < |b| => b[k] as char)
  }

  function Bytes(s: string): (b: seq<byte>)
    requires forall k :: 0 <= k < |s| ==> s[k] as int < 256
    ensures |b| == |s|
  {
    seq(|s|, k requires 0 <= k < |s| => s[k] as int)
  }

  lemma Latin1Bytes(s: string)
    requires forall k :: 0 <= k < |s| ==> s[k] as int < 256
    ensures Latin1(Bytes(s)) == s
  {
  }

  /** The field name `name` stands at `p`, in any letter case. */
  predicate NameAt(h: string, p: nat, name: string) {
    p + |name| <= |h| && forall k :: 0 <= k < |name| ==> LowerAscii(h[p + k]) == name[k]
  }

  /** `/content-length:\s*(\d+)/i` searched from `p`. */
  function LengthFrom(h: string, p: nat): Option<nat>
    requires p <= |h|
    decreases |h| - p
  {
    if !NameAt(h, p, LENGTH_NAME) then
      if p == |h| then None else LengthFrom(h, p + 1)
    else
      var q := SkipSpaces(h, p + |LENGTH_NAME|);
      var e := DigitsEnd(h, q);
      if q < e then Some(DecimalValue(h[q..e])) else LengthFrom(h, p + 1)
  }

  function TypeEnd(h: string, p: nat): (q: nat)
    requires p <= |h|
    ensures p <= q <= |h|
    ensures forall k :: p <= k < q ==> h[k] != '\r' && h[k] != '\n' && h[k] != ';'
    ensures q == |h| || h[q] == '\r' || h[q] == '\n' || h[q] == ';'
    decreases |h| - p
  {
    if p < |h| && h[p] != '\r' && h[p] != '\n' && h[p] != ';' then TypeEnd(h, p + 1) else p
  }

  /**
   * `/content-type:\s*([^\r\n;]+)/i` searched from `p`, the group trimmed and in lower case.
   * When nothing but white space follows the name, the group falls back on white space
   * that is not a line break, which trims to the empty text.
   */
  function TypeFrom(h: string, p: nat): string
    requires p <= |h|
    decreases |h| - p
  {
    if !NameAt(h, p, TYPE_NAME) then
      if p == |h| then "" else TypeFrom(h, p + 1)
    else
      var from := p + |TYPE_NAME|;
      var q := SkipSpaces(h, from);
      var e := TypeEnd(h, q);
      if q < e then LowerText(Trim(h[q..e]))
      else if exists k :: from <= k < q && h[k] != '\r' && h[k] != '\n' then ""
      else TypeFrom(h, p + 1)
  }

  function LowerText(s: string): string {
    seq(|s|, k requires 0 <= k < |s| => LowerLatin1(s[k]))
  }

  // ---- the next part ---------------------------------------------------

  /** What the front of the buffer holds. */
  datatype Scan =
    | NoBoundary
    | OpenHeaders
    | NoLength
    | OpenBody
    | Whole(part: Part, rest: seq<byte>)

  /** Where the headers of the next part lie: after the first boundary, up to the first blank line. */
  datatype Headers = NoStart | NoEnd | At(from: nat, to: nat)

  function FindHeaders(boundary: seq<byte>, buf: seq<byte>): (h: Headers)
    ensures h.At? ==> h.from <= h.to && h.to + |BLANK_LINE| <= |buf|
  {
    var start := IndexOf(buf, boundary, 0);
    if start < 0 then NoStart
    else
      var headerEnd := IndexOf(buf, BLANK_LINE, start + |boundary|);
      if headerEnd < 0 then NoEnd else At(start + |boundary|, headerEnd)
  }

  function ScanPart(boundary: seq<byte>, buf: seq<byte>): (s: Scan)
    ensures s.Whole? ==> |s.rest| < |buf|
  {
    var h := FindHeaders(boundary, buf);
    if h.NoStart? then NoBoundary
    else if h.NoEnd? then OpenHeaders
    else
      var headers := Latin1(buf[h.from..h.to]);
      var bodyStart := h.to + |BLANK_LINE|;
      var length := LengthFrom(headers, 0);
      if length.None? then NoLength
      else if |buf| < bodyStart + length.value then OpenBody
      else
        var bodyEnd := bodyStart + length.value;
        Whole(Part(TypeFrom(headers, 0), buf[bodyStart..bodyEnd]), buf[bodyEnd..])
  }

  lemma FindHeadersStable(boundary: seq<byte>, buf: seq<byte>, x: seq<byte>)
    requires FindHeaders(boundary, buf).At?
    ensures FindHeaders(boundary, buf + x) == FindHeaders(boundary, buf)
  {
    hide IndexOf;
    var start := IndexOf(buf, boundary, 0);
    IndexOfStable(buf, x, boundary, 0);
    IndexOfStable(buf, x, BLANK_LINE, start + |boundary|);
  }

  /** A decision on the buffer is final: later bytes only lengthen what is left over. */
  lemma ScanStable(boundary: seq<byte>, buf: seq<byte>, x: seq<byte>)
    ensures var s := ScanPart(boundary, buf);
            && (s.Whole? ==> ScanPart(boundary, buf + x) == Whole(s.part, s.rest + x))
            && (s.NoLength? ==> ScanPart(boundary, buf + x) == NoLength)
  {
    var h := FindHeaders(boundary, buf);
    if h.At? {
      FindHeadersStable(boundary, buf, x);
      hide FindHeaders, LengthFrom, TypeFrom, Latin1;
      assert (buf + x)[h.from..h.to] == buf[h.from..h.to];
      var bodyStart := h.to + |BLANK_LINE|;
      var length := LengthFrom(Latin1(buf[h.from..h.to]), 0);
      if length.Some? && bodyStart + length.value <= |buf| {
        var bodyEnd := bodyStart + length.value;
        assert (buf + x)[bodyStart..bodyEnd] == buf[bodyStart..bodyEnd];
        assert (buf + x)[bodyEnd..] == buf[bodyEnd..] + x;
      }
    }
  }

  // ---- all the parts of a buffer ---------------------------------------

  datatype Taken = Taken(parts: seq<Part>, rest: seq<byte>)

  function TakeParts(boundary: seq<byte>, buf: seq<byte>): Taken
    decreases |buf|
  {
    var s := ScanPart(boundary, buf);
    if s.Whole? then
      var more := TakeParts(boundary, s.rest);
      Taken([s.part] + more.parts, more.rest)
    else Taken([], buf)
  }

  lemma {:induction false} TakePartsLeavesNone(boundary: seq<byte>, buf: seq<byte>)
    ensures !ScanPart(boundary, TakeParts(boundary, buf).rest).Whole?
    decreases |buf|
  {
    var s := ScanPart(boundary, buf);
    if s.Whole? {
      TakePartsLeavesNone(boundary, s.rest);
    }
  }

  /** Taking parts as bytes arrive gives the parts of the whole. */
  lemma {:induction false} TakePartsAppend(boundary: seq<byte>, buf: seq<byte>, x: seq<byte>)
    ensures var first := TakeParts(boundary, buf);
            var second := TakeParts(boundary, first.rest + x);
            TakeParts(boundary, buf + x) == Taken(first.parts + second.parts, second.rest)
    decreases |buf|
  {
    hide ScanPart;
    var s := ScanPart(boundary, buf);
    ScanStable(boundary, buf, x);
    if s.Whole? {
      TakePartsAppend(boundary, s.rest, x);
    }
  }

  // ---- from parts to blocks --------------------------------------------

  predicate IsImage(part: Part) {
    StartsWith(part.contentType, "image/")
  }

  /** The events of a text part; a heartbeat has none. */
  function PartEvents(part: Part): seq<DahuaEvent> {
    var text := Utf8.Decode(part.body);
    if Trim(text) == "Heartbeat" then [] else EventsOf(text)
  }

  function WaitingBlock(pending: Pending): seq<Block> {
    if pending.Some? && pending.value != [] then [Block(pending.value, None)] else []
  }

  /** One part: the slot after it and the block it completes, if any. */
  function Consume(pending: Pending, part: Part): (Pending, seq<Block>) {
    if IsImage(part) then
      (None, if pending.Some? && pending.value != [] then [Block(pending.value, Some(part.body))] else [])
    else
      var events := PartEvents(part);
      if events == [] then (pending, []) else (Some(events), WaitingBlock(pending))
  }

  function ConsumeAll(pending: Pending, parts: seq<Part>): (Pending, seq<Block>) {
    if parts == [] then (pending, [])
    else
      var (p, out) := ConsumeAll(pending, parts[..|parts| - 1]);
      var (q, last) := Consume(p, parts[|parts| - 1]);
      (q, out + last)
  }

  lemma ConsumeAllSnoc(pending: Pending, parts: seq<Part>, last: Part)
    ensures var (p, out) := ConsumeAll(pending, parts);
            ConsumeAll(pending, parts + [last]) == (Consume(p, last).0, out + Consume(p, last).1)
  {
    assert (parts + [last])[..|parts|] == parts;
  }

  lemma {:induction false} ConsumeAllAppend(pending: Pending, a: seq<Part>, b: seq<Part>)
    ensures var first := ConsumeAll(pending, a);
            var second := ConsumeAll(first.0, b);
            ConsumeAll(pending, a + b) == (second.0, first.1 + second.1)
  {
    hide Consume;
    var first := ConsumeAll(pending, a);
    if b == [] {
      var second := ConsumeAll(first.0, b);
      hide ConsumeAll;
      assert a + b == a && first.1 + second.1 == first.1;
    } else {
      var fewer, last := b[..|b| - 1], b[|b| - 1];
      ConsumeAllAppend(pending, a, fewer);
      ConsumeAllSnoc(pending, a + fewer, last);
      ConsumeAllSnoc(first.0, fewer, last);
      hide ConsumeAll;
      assert a + b == a + fewer + [last] && fewer + [last] == b;
      var middle := ConsumeAll(first.0, fewer);
      var end := Consume(middle.0, last);
      assert first.1 + middle.1 + end.1 == first.1 + (middle.1 + end.1);
    }
  }

  // ---- the parser as a value -------------------------------------------

  datatype State = State(buf: seq<byte>, boundary: Option<seq<byte>>, pending: Pending)

  /** The boundary that the first line of the buffer announces. */
  function Detect(buf: seq<byte>): Option<seq<byte>> {
    var nl := IndexOf(buf, CRLF, 0);
    if nl < 0 then None
    else
      var first := Trim(Latin1(buf[..nl]));
      if StartsWith(first, "--") then Some(Utf8.Encode(first)) else None
  }

  lemma DetectStable(buf: seq<byte>, x: seq<byte>)
    requires Detect(buf).Some?
    ensures Detect(buf + x) == Detect(buf)
  {
    IndexOfStable(buf, x, CRLF, 0);
    var nl := IndexOf(buf, CRLF, 0);
    assert (buf + x)[..nl] == buf[..nl];
  }

  function Step(st: State, chunk: seq<byte>): (State, seq<Block>) {
    var buf := st.buf + chunk;
    var boundary := if st.boundary.Some? then st.boundary else Detect(buf);
    if boundary.None? then (State(buf, None, st.pending), [])
    else
      var taken := TakeParts(boundary.value, buf);
      var (pending, blocks) := ConsumeAll(st.pending, taken.parts);
      (State(taken.rest, boundary, pending), blocks)
  }

  /** Feeding the chunks one after another. */
  function Run(st: State, chunks: seq<seq<byte>>): (State, seq<Block>)
    decreases |chunks|
  {
    if chunks == [] then (st, [])
    else
      var (s1, out) := Step(st, chunks[0]);
      var (s2, more) := Run(s1, chunks[1..]);
      (s2, out + more)
  }

  /** Nothing more can be taken from the buffer: what holds between two pushes. */
  predicate Settled(st: State) {
    if st.boundary.Some? then !ScanPart(st.boundary.value, st.buf).Whole? else Detect(st.buf).None?
  }

  lemma StepSettles(st: State, chunk: seq<byte>)
    ensures Settled(Step(st, chunk).0)
  {
    var buf := st.buf + chunk;
    var boundary := if st.boundary.Some? then st.boundary else Detect(buf);
    if boundary.Some? {
      TakePartsLeavesNone(boundary.value, buf);
    }
  }

  /** Two chunks in a row do what their concatenation does at once. */
  lemma StepTwice(st: State, x: seq<byte>, y: seq<byte>)
    ensures var first := Step(st, x);
            var second := Step(first.0, y);
            Step(st, x + y) == (second.0, first.1 + second.1)
  {
    hide Detect, TakeParts, ConsumeAll;
    var buf := st.buf + x;
    assert st.buf + (x + y) == buf + y;
    var boundary := if st.boundary.Some? then st.boundary else Detect(buf);
    if boundary.Some? {
      if st.boundary.None? {
        DetectStable(buf, y);
      }
      var b := boundary.value;
      var taken := TakeParts(b, buf);
      var more := TakeParts(b, taken.rest + y);
      TakePartsAppend(b, buf, y);
      ConsumeAllAppend(st.pending, taken.parts, more.parts);
    } else {
      assert Step(st, x).0 == State(buf, None, st.pending);
      var second := Step(State(buf, None, st.pending), y);
      assert Step(st, x + y) == second && [] + second.1 == second.1;
    }
  }

  lemma StepNothing(st: State)
    requires Settled(st)
    ensures Step(st, []) == (st, [])
  {
    assert st.buf + [] == st.buf;
  }

  /**
   * Chunk invariance: however the network cuts the stream, the blocks and the final
   * buffer, boundary and waiting events are those of one push of the whole stream.
   */
  lemma {:induction false} ChunkInvariance(st: State, chunks: seq<seq<byte>>)
    requires Settled(st)
    ensures Run(st, chunks) == Step(st, Concat(chunks))
    decreases |chunks|
  {
    if chunks == [] {
      StepNothing(st);
    } else {
      StepSettles(st, chunks[0]);
      ChunkInvariance(Step(st, chunks[0]).0, chunks[1..]);
      StepTwice(st, chunks[0], Concat(chunks[1..]));
    }
  }

  /** Two ways of cutting the same stream are indistinguishable. */
  lemma AnyTwoCutsAgree(st: State, a: seq<seq<byte>>, b: seq<seq<byte>>)
    requires Settled(st) && Concat(a) == Concat(b)
    ensures Run(st, a) == Run(st, b)
  {
    ChunkInvariance(st, a);
    ChunkInvariance(st, b);
  }

  // ---- the class -------------------------------------------------------

  class DahuaEventStreamParser {
    var buf: seq<byte>
    var boundary: Option<seq<byte>>
    var pendingEvents: Pending

    function Value(): State
      reads this
    {
      State(buf, boundary, pendingEvents)
    }

    /** The empty text counts as no boundary. */
    constructor (name: Option<string>)
      ensures Value() == Initial(name) && Settled(Value())
    {
      buf := [];
      boundary := if name.Some? && name.value != "" then Some(Utf8.Encode("--" + name.value)) else None;
      pendingEvents := None;
      new;
      InitialIsSettled(name);
    }

    method Push(chunk: seq<byte>) returns (blocks: seq<Block>)
      modifies this
      ensures (Value(), blocks) == Step(old(Value()), chunk)
      ensures Settled(Value())
    {
      hide ScanPart, Consume, Detect, Settled;
      StepSettles(Value(), chunk);
      ghost var before := pendingEvents;
      buf := buf + chunk;
      if boundary.None? {
        DetectBoundary();
      }
      blocks := [];
      if boundary.None? {
        return;
      }
      ghost var whole, parts := TakeParts(boundary.value, buf), [];
      var part := NextPart();
      while part.Some?
        invariant boundary.Some? && boundary == old(if boundary.Some? then boundary else Detect(buf + chunk))
        invariant part.Some? ==>
                    whole == Taken(parts + [part.value] + TakeParts(boundary.value, buf).parts,
                                   TakeParts(boundary.value, buf).rest)
        invariant part.None? ==> whole == Taken(parts, buf)
        invariant (pendingEvents, blocks) == ConsumeAll(before, parts)
        decreases part.Some?, |buf|
      {
        assert (parts + [part.value])[..|parts|] == parts;
        parts := parts + [part.value];
        var emitted := ConsumePart(part.value);
        blocks := blocks + emitted;
        part := NextPart();
      }
    }

    /** Empties the slot at the end of the stream. */
    method Flush() returns (blocks: seq<Block>)
      modifies this`pendingEvents
      ensures blocks == WaitingBlock(old(pendingEvents))
      ensures pendingEvents == if blocks == [] then old(pendingEvents) else None
    {
      blocks := [];
      if pendingEvents.Some? && pendingEvents.value != [] {
        blocks := [Block(pendingEvents.value, None)];
        pendingEvents := None;
      }
    }

    method DetectBoundary()
      modifies this`boundary
      ensures boundary == if Detect(buf).Some? then Detect(buf) else old(boundary)
    {
      var nl := IndexOf(buf, CRLF, 0);
      if nl < 0 {
        return;
      }
      var first := Trim(Latin1(buf[..nl]));
      if StartsWith(first, "--") {
        boundary := Some(Utf8.Encode(first));
      }
    }

    method NextPart() returns (part: Option<Part>)
      modifies this`buf
      ensures boundary.None? ==> part.None? && buf == old(buf)
      ensures boundary.Some? ==>
                var s := ScanPart(boundary.value, old(buf));
                if s.Whole? then part == Some(s.part) && buf == s.rest else part == None && buf == old(buf)
    {
      hide LengthFrom, TypeFrom, IndexOf;
      part := None;
      if boundary.None? {
        return;
      }
      var start := IndexOf(buf, boundary.value, 0);
      if start < 0 {
        return;
      }
      var headerStart := start + |boundary.value|;
      var headerEnd := IndexOf(buf, BLANK_LINE, headerStart);
      if headerEnd < 0 {
        return;
      }
      var headers := Latin1(buf[headerStart..headerEnd]);
      var bodyStart := headerEnd + |BLANK_LINE|;
      var length := LengthFrom(headers, 0);
      if length.None? || |buf| < bodyStart + length.value {
        return;
      }
      var body := buf[bodyStart..bodyStart + length.value];
      buf := buf[bodyStart + length.value..];
      part := Some(Part(TypeFrom(headers, 0), body));
    }

    method ConsumePart(part: Part) returns (blocks: seq<Block>)
      modifies this`pendingEvents
      ensures (pendingEvents, blocks) == Consume(old(pendingEvents), part)
    {
      blocks := [];
      if IsImage(part) {
        if pendingEvents.Some? && pendingEvents.value != [] {
          blocks := [Block(pendingEvents.value, Some(part.body))];
        }
        pendingEvents := None;
        return;
      }
      var text := Utf8.Decode(part.body);
      if Trim(text) == "Heartbeat" {
        return;
      }
      var events := ParseEvents(text);
      if events == [] {
        return;
      }
      if pendingEvents.Some? && pendingEvents.value != [] {
        blocks := [Block(pendingEvents.value, None)];
      }
      pendingEvents := Some(events);
    }
  }

  function Initial(name: Option<string>): State {
    State([], if name.Some? && name.value != "" then Some(Utf8.Encode("--" + name.value)) else None, None)
  }

  lemma InitialIsSettled(name: Option<string>)
    ensures Settled(Initial(name))
  {
  }
}
