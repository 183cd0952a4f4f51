/**
 * What the reader of event texts accepts, said on the characters of its lines: the form of a line,
 * the line ends, the white space, and which of several lines counts.
 */
module EventLines {
  import opened Text
  import opened EventText

  // ---- one line --------------------------------------------------------

  predicate IsWordChar(c: char) {
    'A' <= c <= 'Z' || 'a' <= c <= 'z' || '0' <= c <= '9' || c == '_' || c == '.'
  }

  /** The trimmed line is `Events[` digits `].` field `=` and the rest of the line. */
  ghost predicate IsForm(t: string, digits: string, field: string, rest: string) {
    && digits != "" && IsDigits(digits)
    && t == "Events[" + digits + "]." + field + "=" + rest
    && field != "" && (forall k :: 0 <= k < |field| ==> IsWordChar(field[k]))
    && forall k :: 0 <= k < |rest| ==> !IsLineEnd(rest[k])
  }

  lemma FormIsMatched(t: string, digits: string, field: string, rest: string)
    requires IsDigits(digits) && IsForm(t, digits, field, rest)
    ensures MatchLine(t) == Some(Line(DecimalValue(digits), field, rest))
  {
    var d := |PREFIX| + |digits|;
    var f := d + 2 + |field|;
    assert t[|PREFIX|..d] == digits;
    assert t[d + 2..f] == field;
    assert t[f + 1..] == rest;
    assert t[..|PREFIX|] == PREFIX;
    hide MatchLine;
    MatchShape(t, d, f);
  }

  lemma MatchParts(t: string, d: nat, f: nat)
    requires MatchLine(t).Some? && d == DigitsEnd(t, 7) && (d + 2 <= |t| ==> f == FieldEnd(t, d + 2))
    ensures 7 < d && d + 2 < f < |t|
    ensures t[..7] == "Events[" && t[d] == ']' && t[d + 1] == '.' && t[f] == '='
    ensures IsDigits(t[7..d]) && MatchLine(t) == Some(Line(DecimalValue(t[7..d]), t[d + 2..f], t[f + 1..]))
    ensures !HasLineEnd(t[f + 1..]) && IsFieldText(t[d + 2..f])
  {
    hide IsFieldChar, IsDigit, IsLineEnd;
  }

  lemma MatchHasForm(t: string)
    requires MatchLine(t).Some?
    ensures var l := MatchLine(t).value;
            var d := DigitsEnd(t, 7);
            && 7 <= d <= |t| && IsDigits(t[7..d]) && DecimalValue(t[7..d]) == l.index
            && IsForm(t, t[7..d], l.field, l.value)
  {
    var d := DigitsEnd(t, 7);
    var f := if d + 2 <= |t| then FieldEnd(t, d + 2) else 0;
    hide MatchLine, DigitsEnd, FieldEnd;
    MatchParts(t, d, f);
    FivePieces(t, d, f);
    hide IsDigits, DecimalValue;
  }

  lemma FivePieces(t: string, d: nat, f: nat)
    requires 7 < d && d + 2 < f < |t|
    requires t[..7] == "Events[" && t[d] == ']' && t[d + 1] == '.' && t[f] == '='
    ensures t == "Events[" + t[7..d] + "]." + t[d + 2..f] + "=" + t[f + 1..]
  {
    assert t == t[..7] + t[7..d] + t[d..d + 2] + t[d + 2..f] + t[f..f + 1] + t[f + 1..];
    assert t[d..d + 2] == "]." && t[f..f + 1] == "=";
  }

  /** The line, whatever surrounds it, tells that the field of the event number `index` is `value`. */
  ghost predicate Tells(line: string, l: Line) {
    exists digits, rest ::
      && IsDigits(digits) && DecimalValue(digits) == l.index
      && IsForm(Trim(line), digits, l.field, rest) && Trim(rest) == l.value
  }

  /** A line is read if and only if it has the form, and then as the form says. */
  lemma ReadExactly(line: string, l: Line)
    ensures ParseLine(line) == Some(l) <==> Tells(line, l)
  {
    hide MatchLine, IsForm, Trim, DecimalValue;
    var t := Trim(line);
    if ParseLine(line) == Some(l) {
      MatchHasForm(t);
      var digits := t[7..DigitsEnd(t, 7)];
      FormHasDigits(t, digits, l.field, MatchLine(t).value.value);
      assert IsForm(t, digits, l.field, MatchLine(t).value.value);
    }
    if Tells(line, l) {
      var digits, rest :|
        && IsDigits(digits) && DecimalValue(digits) == l.index
        && IsForm(t, digits, l.field, rest) && Trim(rest) == l.value;
      FormIsMatched(t, digits, l.field, rest);
    }
  }

  lemma FormHasDigits(t: string, digits: string, field: string, rest: string)
    requires IsForm(t, digits, field, rest)
    ensures IsDigits(digits)
  {
  }

  // ---- which line counts -----------------------------------------------

  /** `l` is the last of the lines with its index and field. */
  ghost predicate IsLastOf(lines: seq<Line>, i: nat) {
    && i < |lines|
    && forall j :: i < j < |lines| ==> !(lines[j].index == lines[i].index && lines[j].field == lines[i].field)
  }

  ghost predicate Mentions(lines: seq<Line>, index: nat, field: string) {
    exists i :: 0 <= i < |lines| && lines[i].index == index && lines[i].field == field
  }

  /** The value that a field of an event has, if any; an event without a `Code` line has the empty code. */
  function ValueIn(ev: DahuaEvent, field: string): Option<string> {
    if field == "Code" then Some(ev.code)
    else if field in ev.fields then Some(ev.fields[field]) else None
  }

  /** Of several lines for the same field of an event the last one counts, wherever they stand. */
  lemma {:induction false} LastLineCounts(lines: seq<Line>, i: nat)
    requires IsLastOf(lines, i) && lines[i].field != "__proto__"
    ensures ValueIn(EventAt(lines, lines[i].index), lines[i].field) == Some(lines[i].value)
  {
    var n := |lines| - 1;
    if i < n {
      LastLineCounts(lines[..n], i);
    }
  }

  lemma MentionsSnoc(lines: seq<Line>, index: nat, field: string)
    requires lines != []
    ensures var last := lines[|lines| - 1];
            Mentions(lines, index, field)
            <==> Mentions(lines[..|lines| - 1], index, field) || (last.index == index && last.field == field)
  {
    var n := |lines| - 1;
    if Mentions(lines, index, field) {
      var i :| 0 <= i < |lines| && lines[i].index == index && lines[i].field == field;
      assert i < n ==> lines[..n][i] == lines[i];
    }
  }

  /** A field that no line gives is not there. */
  lemma {:induction false} OnlyMentionedFields(lines: seq<Line>, index: nat, field: string)
    requires !Mentions(lines, index, field)
    ensures ValueIn(EventAt(lines, index), field) == if field == "Code" then Some("") else None
  {
    hide Mentions;
    if lines != [] {
      MentionsSnoc(lines, index, field);
      OnlyMentionedFields(lines[..|lines| - 1], index, field);
    }
  }

  /** A field named `__proto__` leaves every event as it is. */
  lemma ProtoTellsNothing(lines: seq<Line>, l: Line, k: nat)
    requires l.field == "__proto__"
    ensures EventAt(lines + [l], k) == EventAt(lines, k)
  {
    OneMoreLine(lines, l, k);
  }

  ghost predicate IsFirstOf(lines: seq<Line>, i: nat, index: nat) {
    i < |lines| && lines[i].index == index && forall j :: 0 <= j < i ==> lines[j].index != index
  }

  /** Events come in the order of the first line of each, whatever their numbers, and none twice. */
  lemma {:induction false} IndicesInOrder(lines: seq<Line>, a: nat, b: nat, i: nat, j: nat)
    requires IsFirstOf(lines, i, a) && IsFirstOf(lines, j, b) && i < j
    ensures exists p, q :: 0 <= p < q < |Indices(lines)| && Indices(lines)[p] == a && Indices(lines)[q] == b
    decreases |lines|
  {
    var n := |lines| - 1;
    var before := lines[..n];
    if j < n {
      IndicesInOrder(before, a, b, i, j);
      var p, q :| 0 <= p < q < |Indices(before)| && Indices(before)[p] == a && Indices(before)[q] == b;
      assert Indices(lines)[p] == a && Indices(lines)[q] == b;
    } else {
      IndexIsThere(before, a, i);
      NotThere(before, b);
      var p :| 0 <= p < |Indices(before)| && Indices(before)[p] == a;
      assert Indices(lines) == Indices(before) + [b];
      assert Indices(lines)[p] == a && Indices(lines)[|Indices(before)|] == b;
    }
  }

  lemma {:induction false} IndexIsThere(lines: seq<Line>, index: nat, i: nat)
    requires i < |lines| && lines[i].index == index
    ensures index in Indices(lines)
  {
    var n := |lines| - 1;
    if i < n {
      IndexIsThere(lines[..n], index, i);
    }
  }

  lemma {:induction false} NotThere(lines: seq<Line>, index: nat)
    requires forall i :: 0 <= i < |lines| ==> lines[i].index != index
    ensures index !in Indices(lines)
  {
    if lines != [] {
      NotThere(lines[..|lines| - 1], index);
    }
  }

  lemma {:induction false} IndicesAreDistinct(lines: seq<Line>)
    ensures NoRepeats(Indices(lines))
    ensures forall k | k in Indices(lines) :: exists i :: 0 <= i < |lines| && lines[i].index == k
  {
    if lines != [] {
      var n := |lines| - 1;
      IndicesAreDistinct(lines[..n]);
      forall k | k in Indices(lines) ensures exists i :: 0 <= i < |lines| && lines[i].index == k {
        if k in Indices(lines[..n]) {
          var i :| 0 <= i < n && lines[..n][i].index == k;
          assert lines[i].index == k;
        } else {
          assert lines[n].index == k;
        }
      }
    }
  }

  // ---- whole texts -----------------------------------------------------

  /** The events with a code or some field. */
  function Kept(evs: seq<DahuaEvent>): seq<DahuaEvent> {
    if evs == [] then []
    else
      var last := evs[|evs| - 1];
      Kept(evs[..|evs| - 1]) + (if last.code != "" || last.fields != map[] then [last] else [])
  }

  predicate IsBlank(s: string) {
    forall k :: 0 <= k < |s| ==> IsSpace(s[k]) && !IsLineEnd(s[k])
  }

  /** How a line is written: its number, and the white space before it, around its value and after it. */
  datatype Ink = Ink(before: string, digits: string, gap: string, after: string)

  predicate IsInk(ink: Ink, index: nat) {
    && IsBlank(ink.before) && IsBlank(ink.gap) && IsBlank(ink.after)
    && ink.digits != "" && IsDigits(ink.digits) && DecimalValue(ink.digits) == index
  }

  function Inked(l: Line, ink: Ink): string {
    ink.before + "Events[" + ink.digits + "]." + l.field + "=" + ink.gap + l.value + ink.after
  }

  function InkedAll(lines: seq<Line>, inks: seq<Ink>): (r: seq<string>)
    requires |inks| == |lines|
    ensures |r| == |lines|
  {
    seq(|lines|, k requires 0 <= k < |lines| => Inked(lines[k], inks[k]))
  }

  /** Texts each followed by its own end. */
  function Ended(texts: seq<string>, ends: seq<string>): string
    requires |ends| == |texts|
  {
    if texts == [] then "" else texts[0] + ends[0] + Ended(texts[1..], ends[1..])
  }

  /** Each line ends in a line feed, with or without a carriage return; the last one may end the text. */
  predicate AreEnds(ends: seq<string>) {
    && (forall k :: 0 <= k < |ends| ==> ends[k] == "\n" || ends[k] == "\r\n" || ends[k] == "")
    && forall k :: 0 <= k < |ends| - 1 ==> ends[k] != ""
  }

  function Pieces(texts: seq<string>, ends: seq<string>): seq<string>
    requires |ends| == |texts|
  {
    if texts == [] then [""]
    else if ends[0] == "" then [texts[0]]
    else [if ends[0] == "\r\n" then texts[0] + "\r" else texts[0]] + Pieces(texts[1..], ends[1..])
  }

  lemma {:induction false} SplitEnded(texts: seq<string>, ends: seq<string>)
    requires |ends| == |texts| && AreEnds(ends)
    requires forall k :: 0 <= k < |texts| ==> '\n' !in texts[k]
    ensures Split(Ended(texts, ends), '\n') == Pieces(texts, ends)
    decreases |texts|
  {
    if texts != [] {
      var t, rest := texts[0], Ended(texts[1..], ends[1..]);
      if ends[0] == "" {
        assert |texts| == 1 && rest == "" && t + "" + "" == t;
        SplitPiece(t, '\n');
      } else {
        SplitEnded(texts[1..], ends[1..]);
        var first := if ends[0] == "\r\n" then t + "\r" else t;
        assert t + ends[0] + rest == first + ['\n'] + rest;
        SplitFirst(first, rest, '\n');
      }
    }
  }

  /** The lines of a text: one for each end, and an empty one after the last end. */
  function Lines(texts: seq<string>, ends: seq<string>): seq<string>
    requires |ends| == |texts|
  {
    if texts == [] || ends[|ends| - 1] != "" then texts + [""] else texts
  }

  /** What stands between the line feeds: the lines, and a return where one is written. */
  function Piece(texts: seq<string>, ends: seq<string>, k: nat): string
    requires |ends| == |texts| && k < |Lines(texts, ends)|
  {
    if k < |ends| && ends[k] == "\r\n" then texts[k] + "\r" else Lines(texts, ends)[k]
  }

  lemma {:induction false} PiecesAre(texts: seq<string>, ends: seq<string>, k: nat)
    requires |ends| == |texts| && AreEnds(ends)
    ensures |Pieces(texts, ends)| == |Lines(texts, ends)|
    ensures k < |Pieces(texts, ends)| ==> Pieces(texts, ends)[k] == Piece(texts, ends, k)
    decreases |texts|
  {
    if texts != [] && ends[0] != "" {
      LinesStep(texts, ends);
      assert AreEnds(ends[1..]);
      hide AreEnds, Lines;
      PiecesAre(texts[1..], ends[1..], if k == 0 then 0 else k - 1);
    }
  }

  lemma LinesStep(texts: seq<string>, ends: seq<string>)
    requires |ends| == |texts| && texts != [] && ends[0] != ""
    ensures Lines(texts, ends) == [texts[0]] + Lines(texts[1..], ends[1..])
  {
  }

  /** A text is cut into its lines at line feeds and at returns with a line feed, in any mix. */
  lemma LinesAreSplit(texts: seq<string>, ends: seq<string>)
    requires |ends| == |texts| && AreEnds(ends) && forall k :: 0 <= k < |texts| ==> !HasLineEnd(texts[k])
    ensures SplitLines(Ended(texts, ends)) == Lines(texts, ends)
  {
    hide HasLineEnd, Split, Ended, Pieces, EndsInReturn;
    forall k | 0 <= k < |texts| ensures '\n' !in texts[k] && !EndsInReturn(texts[k]) {
      NoLineEnd(texts[k]);
    }
    SplitEnded(texts, ends);
    PiecesAre(texts, ends, 0);
    var pieces, lines := Pieces(texts, ends), Lines(texts, ends);
    forall k | 0 <= k < |pieces| ensures WithoutReturn(pieces, k) == lines[k] {
      PiecesAre(texts, ends, k);
      if k < |texts| {
        NoLineEnd(texts[k]);
        assert lines[k] == texts[k];
      }
    }
  }

  lemma BlankHasNoEnd(a: string, b: string)
    requires IsBlank(a) && IsBlank(b)
    ensures !HasLineEnd(a) && AllSpace(a) && AllSpace(a + b)
  {
  }

  /** A line in any ink is read as the line. */
  lemma InkedIsRead(l: Line, ink: Ink)
    requires IsCleanLine(l) && IsInk(ink, l.index)
    ensures ParseLine(Inked(l, ink)) == Some(l)
  {
    hide HasLineEnd, Trim, MatchLine, IsDigits, IsSpace, ParseLine;
    var head := "Events[" + ink.digits + "]." + l.field + "=";
    var rest := if l.value == "" then "" else ink.gap + l.value;
    var tail := if l.value == "" then ink.gap + ink.after else ink.after;
    var core := head + rest;
    assert Inked(l, ink) == ink.before + core + tail;
    CoreIsTrimmed(head, rest, l.value);
    BlankHasNoEnd(ink.before, "");
    BlankHasNoEnd(ink.gap, ink.after);
    BlankHasNoEnd(ink.after, "");
    RestHasNoEnd(ink.gap, l.value);
    CoreHasForm(core, l, ink, rest);
    RestIsTrimmed(ink.gap, l.value);
    TrimPadded(ink.before, core, tail);
    hide IsForm, IsInk, IsCleanLine, Inked, AllSpace, IsTrimmed;
    ReadExactly(Inked(l, ink), l);
  }

  lemma RestIsTrimmed(gap: string, value: string)
    requires IsBlank(gap) && IsTrimmed(value)
    ensures Trim(gap + value) == value && Trim("") == ""
  {
    hide IsSpace, Trim, IsTrimmed;
    assert gap + value == gap + value + "" && "" + "" + "" == "";
    BlankHasNoEnd(gap, "");
    BlankHasNoEnd("", "");
    TrimPadded(gap, value, "");
    TrimOfTrimmed("");
  }

  lemma CoreHasForm(core: string, l: Line, ink: Ink, rest: string)
    requires IsCleanLine(l) && IsInk(ink, l.index)
    requires core == "Events[" + ink.digits + "]." + l.field + "=" + rest
    requires forall k :: 0 <= k < |rest| ==> !IsLineEnd(rest[k])
    ensures IsForm(core, ink.digits, l.field, rest)
  {
    hide IsLineEnd;
    assert IsFieldText(l.field);
    hide IsTrimmed;
  }

  lemma CoreIsTrimmed(head: string, rest: string, value: string)
    requires |head| > 7 && head[..7] == "Events[" && head[|head| - 1] == '='
    requires if value == "" then rest == "" else |rest| >= |value| && rest[|rest| - 1] == value[|value| - 1]
    requires IsTrimmed(value)
    ensures IsTrimmed(head + rest)
  {
    assert (head + rest)[0] == head[..7][0] == 'E';
  }

  lemma RestHasNoEnd(gap: string, value: string)
    requires IsBlank(gap) && !HasLineEnd(value)
    ensures forall k :: 0 <= k < |gap + value| ==> !IsLineEnd((gap + value)[k])
  {
  }

  lemma InkedHasNoEnd(l: Line, ink: Ink)
    requires IsCleanLine(l) && IsInk(ink, l.index)
    ensures !HasLineEnd(Inked(l, ink))
  {
    assert !HasLineEnd("Events[") && !HasLineEnd("].") && !HasLineEnd("=");
    assert !HasLineEnd(ink.before) && !HasLineEnd(ink.digits) && !HasLineEnd(l.field);
    assert !HasLineEnd(ink.gap) && !HasLineEnd(ink.after);
    hide IsLineEnd;
    BothHaveNoEnd(ink.before, "Events[");
    BothHaveNoEnd(ink.before + "Events[", ink.digits);
    BothHaveNoEnd(ink.before + "Events[" + ink.digits, "].");
    BothHaveNoEnd(ink.before + "Events[" + ink.digits + "].", l.field);
    BothHaveNoEnd(ink.before + "Events[" + ink.digits + "]." + l.field, "=");
    BothHaveNoEnd(ink.before + "Events[" + ink.digits + "]." + l.field + "=", ink.gap);
    BothHaveNoEnd(ink.before + "Events[" + ink.digits + "]." + l.field + "=" + ink.gap, l.value);
    BothHaveNoEnd(ink.before + "Events[" + ink.digits + "]." + l.field + "=" + ink.gap + l.value, ink.after);
  }

  lemma BothHaveNoEnd(a: string, b: string)
    requires !HasLineEnd(a) && !HasLineEnd(b)
    ensures !HasLineEnd(a + b)
  {
    hide IsLineEnd;
  }

  lemma ReadLines(lines: seq<Line>, texts: seq<string>)
    requires |texts| == |lines| && forall k :: 0 <= k < |lines| ==> ParseLine(texts[k]) == Some(lines[k])
    ensures ParseLines(texts) == lines && ParseLines(texts + [""]) == lines
  {
    hide ParseLine;
    PresentOfAll(ParseEach(texts), lines);
    assert ParseEach(texts + [""])[..|texts|] == ParseEach(texts);
    EmptyLineTellsNothing();
  }

  lemma EmptyLineTellsNothing()
    ensures ParseLine("") == None
  {
  }

  lemma {:induction false} RealEventsKept(lines: seq<Line>, evs: seq<DahuaEvent>)
    requires forall k: nat :: k < |evs| ==> EventAt(lines, k) == evs[k]
    ensures RealEvents(lines, CountUp(|evs|)) == Kept(evs)
  {
    if evs != [] {
      var order, n := CountUp(|evs|), |evs| - 1;
      assert order[..n] == CountUp(n);
      RealEventsKept(lines, evs[..n]);
      hide EventAt;
      assert |evs[n].fields| > 0 <==> evs[n].fields != map[];
    }
  }

  /** Every event is written out in some lines, each with its ink and its end. */
  ghost predicate AreWritten(evs: seq<DahuaEvent>, written: seq<seq<Field>>, inks: seq<Ink>, ends: seq<string>) {
    && |written| == |evs| && (forall k :: 0 <= k < |evs| ==> written[k] != [] && Lists(written[k], evs[k]))
    && |inks| == |ends| == |LinesOfAll(written)| && AreEnds(ends)
    && forall k :: 0 <= k < |inks| ==> IsInk(inks[k], LinesOfAll(written)[k].index)
  }

  /**
   * Written in lines that end in a line feed, with or without a return, in any mix, with white space
   * around lines and values and numbers with leading zeros, the events come back: all that have a
   * code or some field, in order, and no other.
   */
  lemma WrittenEventsComeBack(evs: seq<DahuaEvent>, written: seq<seq<Field>>, inks: seq<Ink>, ends: seq<string>)
    requires AreWritten(evs, written, inks, ends)
    ensures EventsOf(Ended(InkedAll(LinesOfAll(written), inks), ends)) == Kept(evs)
  {
    hide Lists, Built, IsInk, IsCleanLine, HasLineEnd, Inked, Ended, ParseLine, EventAt, Indices, LinesOfAll, AreEnds;
    var lines := LinesOfAll(written);
    var texts := InkedAll(lines, inks);
    ListedLines(evs, written);
    forall k | 0 <= k < |lines| ensures ParseLine(texts[k]) == Some(lines[k]) && !HasLineEnd(texts[k]) {
      InkedIsRead(lines[k], inks[k]);
      InkedHasNoEnd(lines[k], inks[k]);
    }
    LinesAreSplit(texts, ends);
    hide SplitLines;
    ReadLines(lines, texts);
    RealEventsKept(lines, evs);
  }

  lemma ListedLines(evs: seq<DahuaEvent>, written: seq<seq<Field>>)
    requires |written| == |evs| && forall k :: 0 <= k < |evs| ==> written[k] != [] && Lists(written[k], evs[k])
    ensures var lines := LinesOfAll(written);
            && (forall i :: 0 <= i < |lines| ==> IsCleanLine(lines[i]))
            && Indices(lines) == CountUp(|evs|)
            && forall k: nat :: k < |evs| ==> EventAt(lines, k) == evs[k]
  {
    hide EventAt, Indices, IsCleanLine, Built;
    forall k | 0 <= k < |evs| ensures Built(written[k]) == evs[k] {
      BuiltIsListed(written[k], evs[k]);
    }
    CleanLines(written);
    hide LinesOfAll, Lists;
    forall k: nat | k < |evs| ensures EventAt(LinesOfAll(written), k) == evs[k] {
      LinesOfAllGroup(written, k);
    }
    LinesOfAllGroup(written, 0);
  }
}
