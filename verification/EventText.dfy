/** The text of an event part: `Events[i].Field=value` lines, read into a list of events. */
module EventText {
  import opened Text

  datatype DahuaEvent = DahuaEvent(code: string, fields: map<string, string>)

  /** One line that names a field of an event. */
  datatype Line = Line(index: nat, field: string, value: string)

  const PREFIX := "Events["
  const NO_EVENT := DahuaEvent("", map[])

  // ---- one line --------------------------------------------------------

  predicate IsFieldChar(c: char) {
    'A' <= c <= 'Z' || 'a' <= c <= 'z' || IsDigit(c) || c == '_' || c == '.'
  }

  predicate IsFieldText(s: string) {
    forall k :: 0 <= k < |s| ==> IsFieldChar(s[k])
  }

  function FieldEnd(s: string, p: nat): (q: nat)
    requires p <= |s|
    ensures p <= q <= |s|
    ensures forall k :: p <= k < q ==> IsFieldChar(s[k])
    ensures q == |s| || !IsFieldChar(s[q])
    decreases |s| - p
  {
    if p < |s| && IsFieldChar(s[p]) then FieldEnd(s, p + 1) else p
  }

  /** A trimmed line as the regular expression reads it: index, field and the text after `=`; or nothing. */
  function MatchLine(t: string): Option<Line> {
    if !StartsWith(t, PREFIX) then None
    else
      var d := DigitsEnd(t, |PREFIX|);
      if d == |PREFIX| || |t| < d + 2 || t[d] != ']' || t[d + 1] != '.' then None
      else
        var f := FieldEnd(t, d + 2);
        if f == d + 2 || f == |t| || t[f] != '=' || HasLineEnd(t[f + 1..]) then None
        else Some(Line(DecimalValue(t[|PREFIX|..d]), t[d + 2..f], t[f + 1..]))
  }

  function ParseLine(line: string): Option<Line> {
    var m := MatchLine(Trim(line));
    if m.Some? then Some(m.value.(value := Trim(m.value.value))) else None
  }

  predicate EndsInReturn(s: string) {
    s != "" && s[|s| - 1] == '\r'
  }

  function WithoutReturn(pieces: seq<string>, k: nat): string
    requires k < |pieces|
  {
    if k + 1 < |pieces| && EndsInReturn(pieces[k]) then pieces[k][..|pieces[k]| - 1] else pieces[k]
  }

  /** The pieces of a text between line feeds, each without the carriage return before its line feed. */
  function SplitLines(text: string): seq<string> {
    var pieces := Split(text, '\n');
    seq(|pieces|, k requires 0 <= k < |pieces| => WithoutReturn(pieces, k))
  }

  /** The values that are there, in order. */
  function Present<T>(ms: seq<Option<T>>): seq<T> {
    if ms == [] then []
    else
      var last := ms[|ms| - 1];
      Present(ms[..|ms| - 1]) + (if last.Some? then [last.value] else [])
  }

  function ParseEach(lines: seq<string>): seq<Option<Line>> {
    seq(|lines|, k requires 0 <= k < |lines| => ParseLine(lines[k]))
  }

  function ParseLines(lines: seq<string>): seq<Line> {
    Present(ParseEach(lines))
  }

  lemma PresentStep<T>(ms: seq<Option<T>>, i: nat)
    requires i < |ms|
    ensures Present(ms[..i + 1]) == Present(ms[..i]) + (if ms[i].Some? then [ms[i].value] else [])
  {
    assert ms[..i + 1][..i] == ms[..i];
  }

  // ---- what a list of lines means --------------------------------------

  /** The event indices in the order of their first line. */
  function Indices(lines: seq<Line>): seq<nat> {
    if lines == [] then []
    else
      var before, last := Indices(lines[..|lines| - 1]), lines[|lines| - 1];
      if last.index in before then before else before + [last.index]
  }

  /** Setting a field of the record. A record has no own field named `__proto__`. */
  function WithField(ev: DahuaEvent, field: string, value: string): DahuaEvent {
    if field == "Code" then ev.(code := value)
    else if field == "__proto__" then ev
    else ev.(fields := ev.fields[field := value])
  }

  /** The event that the lines with index `k` describe, the last line of a field winning. */
  function EventAt(lines: seq<Line>, k: nat): DahuaEvent {
    if lines == [] then NO_EVENT
    else
      var before, last := EventAt(lines[..|lines| - 1], k), lines[|lines| - 1];
      if last.index == k then WithField(before, last.field, last.value) else before
  }

  predicate IsReal(ev: DahuaEvent) {
    ev.code != "" || |ev.fields| > 0
  }

  function RealEvents(lines: seq<Line>, order: seq<nat>): seq<DahuaEvent> {
    if order == [] then []
    else
      var ev := EventAt(lines, order[|order| - 1]);
      RealEvents(lines, order[..|order| - 1]) + (if IsReal(ev) then [ev] else [])
  }

  lemma RealEventsStep(lines: seq<Line>, order: seq<nat>, i: nat)
    requires i < |order|
    ensures var ev := EventAt(lines, order[i]);
            RealEvents(lines, order[..i + 1]) == RealEvents(lines, order[..i]) + (if IsReal(ev) then [ev] else [])
  {
    assert order[..i + 1][..i] == order[..i];
  }

  /** The events of a text: its lines grouped by index, in the order of first appearance. */
  function EventsOf(text: string): seq<DahuaEvent> {
    var lines := ParseLines(SplitLines(text));
    RealEvents(lines, Indices(lines))
  }

  // ---- the reader ------------------------------------------------------

  /** The contents of the Map from index to event once `lines` have been read. */
  function ByIndex(lines: seq<Line>): map<nat, DahuaEvent> {
    map k | k in Indices(lines) :: EventAt(lines, k)
  }

  lemma AbsentIndexHasNoEvent(lines: seq<Line>, k: nat)
    requires k !in Indices(lines)
    ensures EventAt(lines, k) == NO_EVENT
  {
    if lines != [] {
      AbsentIndexHasNoEvent(lines[..|lines| - 1], k);
    }
  }

  /** Reading one more line updates the Map at its index only. */
  lemma ReadLine(lines: seq<Line>, l: Line)
    ensures var known := l.index in ByIndex(lines);
            var before := if known then ByIndex(lines)[l.index] else NO_EVENT;
            && Indices(lines + [l]) == (if known then Indices(lines) else Indices(lines) + [l.index])
            && ByIndex(lines + [l]) == ByIndex(lines)[l.index := WithField(before, l.field, l.value)]
  {
    var all := lines + [l];
    assert all[..|all| - 1] == lines;
    if l.index !in Indices(lines) {
      AbsentIndexHasNoEvent(lines, l.index);
    }
  }

  /** Fills the Map line by line, skipping the lines that do not match. */
  method GroupByIndex(matched: seq<Option<Line>>) returns (order: seq<nat>, byIndex: map<nat, DahuaEvent>)
    ensures order == Indices(Present(matched)) && byIndex == ByIndex(Present(matched))
  {
    order, byIndex := [], map[];
    ghost var parsed: seq<Line> := [];
    for i := 0 to |matched|
      invariant parsed == Present(matched[..i])
      invariant order == Indices(parsed) && byIndex == ByIndex(parsed)
    {
      PresentStep(matched, i);
      if matched[i].Some? {
        var l := matched[i].value;
        ReadLine(parsed, l);
        parsed := parsed + [l];
        var before := NO_EVENT;
        if l.index in byIndex {
          before := byIndex[l.index];
        } else {
          order := order + [l.index];
        }
        byIndex := byIndex[l.index := WithField(before, l.field, l.value)];
      }
    }
    assert matched[..|matched|] == matched;
  }

  method ParseEvents(text: string) returns (events: seq<DahuaEvent>)
    ensures events == EventsOf(text)
  {
    var order, byIndex := GroupByIndex(ParseEach(SplitLines(text)));
    ghost var lines := ParseLines(SplitLines(text));
    events := [];
    for i := 0 to |order|
      invariant events == RealEvents(lines, order[..i])
    {
      RealEventsStep(lines, order, i);
      var ev := byIndex[order[i]];
      if IsReal(ev) {
        events := events + [ev];
      }
    }
    assert order[..|order|] == order;
  }

  // ---- the writer ------------------------------------------------------

  datatype Field = Field(name: string, value: string)

  predicate IsCleanField(f: Field) {
    && f.name != "" && IsFieldText(f.name) && IsTrimmed(f.value) && !HasLineEnd(f.value)
  }

  function PrintLine(l: Line): string {
    PREFIX + Decimal(l.index) + "]." + l.field + "=" + l.value
  }

  lemma MatchShape(t: string, d: nat, f: nat)
    requires StartsWith(t, PREFIX)
    requires |PREFIX| < d && d + 2 < f < |t|
    requires IsDigits(t[|PREFIX|..d])
    requires t[d] == ']' && t[d + 1] == '.'
    requires IsFieldText(t[d + 2..f])
    requires t[f] == '=' && !HasLineEnd(t[f + 1..])
    ensures MatchLine(t) == Some(Line(DecimalValue(t[|PREFIX|..d]), t[d + 2..f], t[f + 1..]))
  {
    DigitsEndIs(t, |PREFIX|, d);
    FieldEndIs(t, d + 2, f);
  }

  lemma FieldEndIs(s: string, p: nat, q: nat)
    requires p <= q < |s| && !IsFieldChar(s[q])
    requires IsFieldText(s[p..q])
    ensures FieldEnd(s, p) == q
  {
    forall k | p <= k < q ensures IsFieldChar(s[k]) {
      assert s[k] == s[p..q][k - p];
    }
  }

  lemma ParsePrintedLine(l: Line)
    requires IsCleanLine(l)
    ensures ParseLine(PrintLine(l)) == Some(l)
  {
    var t, digits := PrintLine(l), Decimal(l.index);
    var d := |PREFIX| + |digits|;
    var f := d + 2 + |l.field|;
    assert t[|PREFIX|..d] == digits;
    assert t[d + 2..f] == l.field;
    assert t[f + 1..] == l.value;
    MatchShape(t, d, f);
    DecimalRoundTrip(l.index);
    TrimOfTrimmed(t);
    TrimOfTrimmed(l.value);
  }

  predicate IsCleanLine(l: Line) {
    IsCleanField(Field(l.field, l.value))
  }

  lemma PrintedLineHasNoLineEnd(l: Line)
    requires IsCleanLine(l)
    ensures !HasLineEnd(PrintLine(l))
  {
    var t, digits := PrintLine(l), Decimal(l.index);
    var d := |PREFIX| + |digits|;
    var f := d + 2 + |l.field|;
    forall k | 0 <= k < |t| ensures !IsLineEnd(t[k]) {
      if |PREFIX| <= k < d {
        assert t[k] == digits[k - |PREFIX|];
      } else if d + 2 <= k < f {
        assert t[k] == l.field[k - d - 2];
      } else if f < k {
        assert t[k] == l.value[k - f - 1];
      }
    }
  }

  function PrintLines(lines: seq<Line>): seq<string> {
    seq(|lines|, k requires 0 <= k < |lines| => PrintLine(lines[k]))
  }

  lemma {:induction false} PresentOfAll<T>(ms: seq<Option<T>>, values: seq<T>)
    requires |ms| == |values| && forall k :: 0 <= k < |ms| ==> ms[k] == Some(values[k])
    ensures Present(ms) == values
  {
    if ms != [] {
      PresentOfAll(ms[..|ms| - 1], values[..|ms| - 1]);
    }
  }

  lemma ParsePrintedLines(lines: seq<Line>)
    requires forall i :: 0 <= i < |lines| ==> IsCleanLine(lines[i])
    ensures ParseLines(PrintLines(lines)) == lines
  {
    var matched := ParseEach(PrintLines(lines));
    forall k | 0 <= k < |lines| ensures matched[k] == Some(lines[k]) {
      ParsePrintedLine(lines[k]);
    }
    PresentOfAll(matched, lines);
  }

  function WithReturns(lines: seq<string>): seq<string> {
    seq(|lines|, k requires 0 <= k < |lines| => if k + 1 < |lines| then lines[k] + "\r" else lines[k])
  }

  lemma {:induction false} SplitReturns(lines: seq<string>)
    requires lines != [] && forall k :: 0 <= k < |lines| ==> '\n' !in lines[k]
    ensures Split(Join(lines, "\r\n"), '\n') == WithReturns(lines)
  {
    if |lines| == 1 {
      SplitPiece(lines[0], '\n');
    } else {
      var rest := Join(lines[1..], "\r\n");
      assert lines[0] + "\r\n" + rest == (lines[0] + "\r") + ['\n'] + rest;
      SplitFirst(lines[0] + "\r", rest, '\n');
      SplitReturns(lines[1..]);
      assert WithReturns(lines) == [lines[0] + "\r"] + WithReturns(lines[1..]);
    }
  }

  lemma NoLineEnd(s: string)
    requires !HasLineEnd(s)
    ensures '\n' !in s && !EndsInReturn(s)
    ensures EndsInReturn(s + "\r") && (s + "\r")[..|s|] == s
  {
  }

  lemma SplitJoinedLines(lines: seq<string>)
    requires lines != []
    requires forall k :: 0 <= k < |lines| ==> !HasLineEnd(lines[k])
    ensures SplitLines(Join(lines, "\r\n")) == lines
  {
    hide Split, Join, HasLineEnd, EndsInReturn;
    forall k | 0 <= k < |lines| ensures '\n' !in lines[k] && !EndsInReturn(lines[k]) {
      NoLineEnd(lines[k]);
    }
    SplitReturns(lines);
    forall k | 0 <= k < |lines| ensures WithoutReturn(WithReturns(lines), k) == lines[k] {
      NoLineEnd(lines[k]);
    }
  }

  /** The lines of the event number `k`. */
  function LinesOf(k: nat, fields: seq<Field>): seq<Line> {
    seq(|fields|, i requires 0 <= i < |fields| => Line(k, fields[i].name, fields[i].value))
  }

  /** The lines of a list of events, the event number `k` with the fields `events[k]`. */
  function LinesOfAll(events: seq<seq<Field>>): seq<Line> {
    if events == [] then []
    else LinesOfAll(events[..|events| - 1]) + LinesOf(|events| - 1, events[|events| - 1])
  }

  function PrintEvents(events: seq<seq<Field>>): string {
    Join(PrintLines(LinesOfAll(events)), "\r\n")
  }

  /** `fields` is the record `ev` written out, each field once and in any order. */
  ghost predicate Lists(fields: seq<Field>, ev: DahuaEvent) {
    && (forall f | f in fields :: IsCleanField(f) && f.name != "__proto__")
    && (forall i, j :: 0 <= i < j < |fields| ==> fields[i].name != fields[j].name)
    && (forall f | f in fields ::
          if f.name == "Code" then f.value == ev.code else f.name in ev.fields && ev.fields[f.name] == f.value)
    && (forall n | n in ev.fields :: n != "Code" && Names(fields, n))
    && (ev.code != "" ==> Names(fields, "Code"))
  }

  ghost predicate Names(fields: seq<Field>, name: string) {
    exists i :: 0 <= i < |fields| && fields[i].name == name
  }

  function Built(fields: seq<Field>): DahuaEvent {
    if fields == [] then NO_EVENT
    else
      var last := fields[|fields| - 1];
      WithField(Built(fields[..|fields| - 1]), last.name, last.value)
  }

  ghost predicate Holds(ev: DahuaEvent, f: Field) {
    if f.name == "Code" then ev.code == f.value else f.name in ev.fields && ev.fields[f.name] == f.value
  }

  lemma NamesSnoc(fields: seq<Field>, last: Field, name: string)
    ensures Names(fields + [last], name) <==> Names(fields, name) || last.name == name
  {
    var all := fields + [last];
    if Names(fields, name) {
      var i :| 0 <= i < |fields| && fields[i].name == name;
      assert all[i].name == name;
    }
    assert all[|fields|] == last;
  }

  lemma {:induction false} BuiltHasValues(fields: seq<Field>)
    requires forall i, j :: 0 <= i < j < |fields| ==> fields[i].name != fields[j].name
    requires forall i :: 0 <= i < |fields| ==> fields[i].name != "__proto__"
    ensures !Names(fields, "Code") ==> Built(fields).code == ""
    ensures forall i :: 0 <= i < |fields| ==> Holds(Built(fields), fields[i])
    ensures forall n | n in Built(fields).fields :: n != "Code" && Names(fields, n)
  {
    if fields != [] {
      var before, last := fields[..|fields| - 1], fields[|fields| - 1];
      BuiltHasValues(before);
      assert fields == before + [last];
      NamesSnoc(before, last, "Code");
      forall n | n in Built(fields).fields ensures n != "Code" && Names(fields, n) {
        NamesSnoc(before, last, n);
      }
      forall i | 0 <= i < |fields| ensures Holds(Built(fields), fields[i]) {
        if i < |before| {
          assert Holds(Built(before), before[i]) && before[i].name != last.name;
        }
      }
    }
  }

  lemma BuiltIsListed(fields: seq<Field>, ev: DahuaEvent)
    requires Lists(fields, ev)
    ensures Built(fields) == ev
  {
    var b := Built(fields);
    assert forall i :: 0 <= i < |fields| ==> fields[i] in fields;
    BuiltHasValues(fields);
    forall n | Names(fields, n)
      ensures if n == "Code" then b.code == ev.code
              else n in b.fields && n in ev.fields && b.fields[n] == ev.fields[n]
    {
      var i :| 0 <= i < |fields| && fields[i].name == n;
      assert Holds(b, fields[i]);
    }
    assert b.fields.Keys == ev.fields.Keys;
    assert b.fields == ev.fields;
  }

  lemma OneMoreLine(lines: seq<Line>, l: Line, j: nat)
    ensures Indices(lines + [l]) == if l.index in Indices(lines) then Indices(lines) else Indices(lines) + [l.index]
    ensures EventAt(lines + [l], j)
            == if l.index == j then WithField(EventAt(lines, j), l.field, l.value) else EventAt(lines, j)
  {
    assert (lines + [l])[..|lines|] == lines;
  }

  /** Lines of a new index add one event and leave the others alone. */
  lemma {:induction false} BlockOfLines(before: seq<Line>, k: nat, fields: seq<Field>, j: nat)
    requires k !in Indices(before)
    ensures Indices(before + LinesOf(k, fields)) == if fields == [] then Indices(before) else Indices(before) + [k]
    ensures EventAt(before + LinesOf(k, fields), j) == if j == k then Built(fields) else EventAt(before, j)
  {
    hide WithField, EventAt, Indices;
    if fields == [] {
      assert before + LinesOf(k, fields) == before;
      AbsentIndexHasNoEvent(before, k);
    } else {
      var fewer, f := fields[..|fields| - 1], fields[|fields| - 1];
      var last := Line(k, f.name, f.value);
      BlockOfLines(before, k, fewer, j);
      assert before + LinesOf(k, fields) == before + LinesOf(k, fewer) + [last];
      OneMoreLine(before + LinesOf(k, fewer), last, j);
    }
  }

  /** The indices of `n` events, in order. */
  function CountUp(n: nat): (r: seq<nat>)
    ensures |r| == n && forall k :: 0 <= k < n ==> r[k] == k
  {
    if n == 0 then [] else CountUp(n - 1) + [n - 1]
  }

  lemma {:induction false} LinesOfAllGroup(events: seq<seq<Field>>, k: nat)
    requires forall i :: 0 <= i < |events| ==> events[i] != []
    ensures Indices(LinesOfAll(events)) == CountUp(|events|)
    ensures k < |events| ==> EventAt(LinesOfAll(events), k) == Built(events[k])
  {
    if events != [] {
      hide EventAt, Indices, Built, LinesOf;
      var n := |events| - 1;
      var lines, last := LinesOfAll(events[..n]), events[n];
      LinesOfAllGroup(events[..n], k);
      BlockOfLines(lines, n, last, k);
      assert LinesOfAll(events) == lines + LinesOf(n, last);
    }
  }

  lemma {:induction false} RealEventsListed(lines: seq<Line>, evs: seq<DahuaEvent>)
    requires forall k: nat :: k < |evs| ==> EventAt(lines, k) == evs[k] && IsReal(evs[k])
    ensures RealEvents(lines, CountUp(|evs|)) == evs
  {
    if evs != [] {
      var order, n := CountUp(|evs|), |evs| - 1;
      assert order[..n] == CountUp(n);
      RealEventsListed(lines, evs[..n]);
      hide EventAt, IsReal;
    }
  }

  lemma CleanLines(events: seq<seq<Field>>)
    requires forall k :: 0 <= k < |events| ==> forall f | f in events[k] :: IsCleanField(f)
    ensures forall i :: 0 <= i < |LinesOfAll(events)| ==> IsCleanLine(LinesOfAll(events)[i])
  {
    if events != [] {
      var n := |events| - 1;
      CleanLines(events[..n]);
      var block := LinesOf(n, events[n]);
      assert forall i :: 0 <= i < |block| ==> events[n][i] in events[n];
    }
  }

  lemma NothingWritten(written: seq<seq<Field>>)
    requires written == []
    ensures PrintEvents(written) == "" && EventsOf("") == []
  {
    assert SplitLines("") == [""];
    assert ParseLines([""]) == [];
  }

  /** Written as `Events[i].Field=value` lines and read back, a list of events is unchanged. */
  lemma EventsRoundTrip(evs: seq<DahuaEvent>, written: seq<seq<Field>>)
    requires |written| == |evs|
    requires forall k :: 0 <= k < |evs| ==> IsReal(evs[k]) && Lists(written[k], evs[k])
    ensures EventsOf(PrintEvents(written)) == evs
  {
    if evs == [] {
      NothingWritten(written);
      return;
    }
    forall k | 0 <= k < |evs| ensures written[k] != [] && Built(written[k]) == evs[k] {
      BuiltIsListed(written[k], evs[k]);
    }
    var lines := LinesOfAll(written);
    CleanLines(written);
    forall k: nat | k < |evs| ensures EventAt(lines, k) == evs[k] {
      LinesOfAllGroup(written, k);
    }
    LinesOfAllGroup(written, 0);
    assert lines != [];
    var printed := PrintLines(lines);
    forall i | 0 <= i < |printed| ensures !HasLineEnd(printed[i]) {
      PrintedLineHasNoLineEnd(lines[i]);
    }
    SplitJoinedLines(printed);
    ParsePrintedLines(lines);
    RealEventsListed(lines, evs);
  }
}
