/** The printers of blog blocks, and the proof that the scanner reads back what they print. */
module BlogPrinter {
  import opened Text
  import opened BlogContent

  // ---- printers --------------------------------------------------------

  /** `replace(/[|\]]/g, '')`. */
  function WithoutBars(s: string): string {
    if s == "" then "" else (if s[0] == '|' || s[0] == ']' then "" else [s[0]]) + WithoutBars(s[1..])
  }

  /** `buttonBlock`. */
  function ButtonBlock(caption: string, href: string): string {
    "[[boton: " + Trim(WithoutBars(caption)) + " | " + href + "]]"
  }

  /** `widgetBlock`. */
  function WidgetBlock(widget: string): string {
    "[[" + widget + "]]"
  }

  predicate IsBarOrSpace(c: char) {
    c == '|' || IsSpace(c)
  }

  /** `replace(/[|\s]+/g, ' ')`. */
  function Collapse(s: string): string {
    if s == "" then ""
    else if !IsBarOrSpace(s[0]) then [s[0]] + Collapse(s[1..])
    else if |s| > 1 && IsBarOrSpace(s[1]) then Collapse(s[1..])
    else " " + Collapse(s[1..])
  }

  function Clean(s: string): string {
    Trim(Collapse(s))
  }

  function OrEmpty(s: Option<string>): string {
    if s.Some? then s.value else ""
  }

  function ColumnLine(c: Column): string {
    Clean(OrEmpty(c.imageUrl)) + " | " + Clean(c.title) + " | " + Clean(OrEmpty(c.subtitle))
  }

  function ColumnLines(columns: seq<Column>): (r: seq<string>)
    ensures |r| == |columns|
  {
    seq(|columns|, k requires 0 <= k < |columns| => ColumnLine(columns[k]))
  }

  const OPEN := "[[comparativa]]"
  const CLOSE := "[[/comparativa]]"

  function ComparisonLines(columns: seq<Column>): seq<string> {
    [OPEN] + ColumnLines(columns) + [CLOSE]
  }

  /** `comparisonBlock`. */
  function ComparisonBlock(columns: seq<Column>): string {
    Join(ComparisonLines(columns), "\n")
  }

  function Print(b: Block): string {
    match b
    case Markdown(text) => text
    case Button(caption, href) => ButtonBlock(caption, href)
    case Widget(widget) => WidgetBlock(widget)
    case Comparison(columns) => ComparisonBlock(columns)
  }

  function PrintAll(blocks: seq<Block>): (r: seq<string>)
    ensures |r| == |blocks|
  {
    seq(|blocks|, k requires 0 <= k < |blocks| => Print(blocks[k]))
  }

  function PrintPost(blocks: seq<Block>): string {
    Join(PrintAll(blocks), "\n")
  }

  // ---- what prints well ------------------------------------------------

  /** No line end and no `|`, trimmed and not empty. */
  predicate IsPart(s: string) {
    s != "" && IsTrimmed(s) && forall k :: 0 <= k < |s| ==> s[k] != '|' && !IsLineEnd(s[k])
  }

  predicate HasNoBar(s: string) {
    forall k :: 0 <= k < |s| ==> s[k] != '|' && s[k] != ']'
  }

  /** Texts of a column: already as the printer leaves them, and not too long. */
  predicate IsCleanText(s: string, most: nat) {
    Clean(s) == s && |s| <= most
  }

  predicate IsCleanColumn(c: Column) {
    && c.title != "" && IsCleanText(c.title, 120)
    && (c.imageUrl.Some? ==>
          c.imageUrl.value != "" && IsCleanText(c.imageUrl.value, 500) && StartsLike(c.imageUrl.value, "https://"))
    && (c.subtitle.Some? ==> c.subtitle.value != "" && IsCleanText(c.subtitle.value, 200))
  }

  /** A line of text that the scanner leaves alone outside a fence. */
  predicate IsTextLine(line: string) {
    !IsOpenLine(line) && BlockOfLine(line).None?
  }

  /** Lines of text with every fence closed and no block line outside a fence. */
  predicate IsText(lines: seq<string>, inFence: bool) {
    if lines == [] then !inFence
    else
      var fenced := inFence != IsFenceLine(lines[0]);
      (fenced || IsTextLine(lines[0])) && IsText(lines[1..], fenced)
  }

  ghost predicate IsPrintable(b: Block) {
    match b
    case Markdown(text) => Trim(text) != "" && IsText(Split(text, '\n'), false)
    case Button(caption, href) =>
      IsPart(caption) && HasNoBar(caption) && |caption| <= 80 && IsPart(href) && IsAddress(href)
    case Widget(widget) => widget in WIDGETS
    case Comparison(columns) =>
      MIN_COLUMNS <= |columns| <= MAX_COLUMNS && forall k :: 0 <= k < |columns| ==> IsCleanColumn(columns[k])
  }

  /** A post that can be printed and read back: printable blocks, no two texts in a row. */
  ghost predicate IsPost(blocks: seq<Block>) {
    && (forall k :: 0 <= k < |blocks| ==> IsPrintable(blocks[k]))
    && forall k :: 0 < k < |blocks| ==> !(blocks[k - 1].Markdown? && blocks[k].Markdown?)
  }

  // ---- buttons and widgets ---------------------------------------------

  lemma {:induction false} NoBarsToDrop(s: string)
    requires HasNoBar(s)
    ensures WithoutBars(s) == s
  {
    if s != "" {
      NoBarsToDrop(s[1..]);
      assert s == [s[0]] + s[1..];
    }
  }

  /** Bars and closing brackets go, one character at a time; the others stay in order. */
  lemma {:induction false} BarsGo(s: string, c: char)
    ensures HasNoBar(WithoutBars(s))
    ensures WithoutBars(s + [c]) == WithoutBars(s) + (if c == '|' || c == ']' then "" else [c])
  {
    if s == "" {
      assert s + [c] == [c];
    } else {
      assert (s + [c])[1..] == s[1..] + [c];
      BarsGo(s[1..], c);
    }
  }

  /** The scan of a trimmed block line, by its pieces. */
  lemma MatchPieces(t: string, e: nat)
    requires 2 < e <= |t| && t[..2] == "[[" && !IsSpace(t[2])
    requires forall k :: 2 <= k < e ==> IsNameChar(t[k])
    requires e < |t| && !IsNameChar(t[e]) && !IsSpace(t[e])
    ensures t[e] == ':' && e + 3 <= |t| && t[|t| - 2..] == "]]" && !HasLineEnd(Trim(t[e + 1..|t| - 2])) ==>
              MatchBlock(t) == Some((LowerName(t[2..e]), Trim(t[e + 1..|t| - 2])))
    ensures t[e..] == "]]" ==> MatchBlock(t) == Some((LowerName(t[2..e]), ""))
  {
    hide Trim, HasLineEnd, LowerName;
    assert SkipSpaces(t, 2) == 2;
    assert NameEnd(t, 2) == e;
    assert SkipSpaces(t, e) == e;
    assert t[e..] == "]]" ==> t[e] == t[e..][0] == ']';
  }

  lemma LowerOfBoton()
    ensures LowerName("boton") == "boton"
  {
  }

  /** Where the pieces of a printed button stand. */
  lemma ButtonShape(t: string, arg: string)
    requires t == "[[boton: " + arg + "]]" && arg != ""
    ensures |t| == |arg| + 11 && t[..2] == "[[" && t[2..7] == "boton" && t[7] == ':' && t[2] == 'b'
    ensures forall k :: 2 <= k < 7 ==> IsNameChar(t[k])
    ensures t[8..|t| - 2] == " " + arg + "" && t[|t| - 2..] == "]]" && IsTrimmed(t)
  {
    assert t[2..7] == "boton";
    forall k | 2 <= k < 7 ensures IsNameChar(t[k]) {
      assert t[k] == "boton"[k - 2];
    }
  }

  lemma ColonEndsAName()
    ensures !IsNameChar(':') && !IsSpace(':') && !IsSpace('b')
  {
  }

  lemma ButtonMatches(t: string, arg: string)
    requires t == "[[boton: " + arg + "]]" && arg != "" && IsTrimmed(arg) && !HasLineEnd(arg)
    ensures MatchBlock(t) == Some(("boton", arg)) && IsTrimmed(t)
  {
    hide MatchBlock, HasLineEnd, Trim, LowerName, IsNameChar, IsTrimmed;
    ButtonShape(t, arg);
    hide StartsWith;
    assert AllSpace(" ") && AllSpace("");
    TrimPadded(" ", arg, "");
    LowerOfBoton();
    ColonEndsAName();
    MatchPieces(t, 7);
  }

  lemma ButtonLine(caption: string, href: string)
    requires IsPrintable(Button(caption, href))
    ensures var line := ButtonBlock(caption, href);
            && line == "[[boton: " + (caption + " | " + href) + "]]" && IsTrimmed(line)
            && MatchBlock(line) == Some(("boton", caption + " | " + href))
  {
    hide MatchBlock, HasLineEnd, Trim, IsAddress, WithoutBars;
    NoBarsToDrop(caption);
    TrimOfTrimmed(caption);
    var line, arg := ButtonBlock(caption, href), caption + " | " + href;
    assert line == "[[boton: " + arg + "]]";
    ArgHasNoLineEnd(caption, href);
    ButtonMatches(line, arg);
  }

  lemma ArgHasNoLineEnd(caption: string, href: string)
    requires IsPart(caption) && IsPart(href)
    ensures !HasLineEnd(caption + " | " + href)
  {
    var arg := caption + " | " + href;
    forall k | 0 <= k < |arg| ensures !IsLineEnd(arg[k]) {
      if k < |caption| {
        assert arg[k] == caption[k];
      } else if |caption| + 3 <= k {
        assert arg[k] == href[k - |caption| - 3];
      }
    }
  }

  lemma ButtonParts(caption: string, href: string)
    requires IsPart(caption) && IsPart(href)
    ensures TrimAll(Split(caption + " | " + href, '|')) == [caption, href]
  {
    hide Trim;
    assert caption + " | " + href == (caption + " ") + ['|'] + (" " + href);
    SplitFirst(caption + " ", " " + href, '|');
    SplitPiece(" " + href, '|');
    TrimPadded("", caption, " ");
    TrimPadded(" ", href, "");
    assert "" + caption + " " == caption + " " && " " + href + "" == " " + href;
  }

  lemma ButtonBack(caption: string, href: string)
    requires IsPrintable(Button(caption, href))
    ensures BlockOfLine(ButtonBlock(caption, href)) == Some(Button(caption, href))
  {
    hide MatchBlock, Trim, IsHref, IsAddress, ButtonBlock, Split;
    AddressExactly(href);
    ButtonLine(caption, href);
    TrimOfTrimmed(ButtonBlock(caption, href));
    ButtonParts(caption, href);
  }

  /** Whatever its text, a button is read back with the text that is left of it, cut at 80 characters. */
  lemma AnyButtonBack(caption: string, href: string)
    requires !HasLineEnd(caption) && Trim(WithoutBars(caption)) != "" && IsPart(href) && IsAddress(href)
    ensures var kept := Trim(WithoutBars(caption));
            BlockOfLine(ButtonBlock(caption, href)) == Some(Button(if |kept| <= 80 then kept else kept[..80], href))
  {
    hide MatchBlock, Trim, IsHref, IsAddress, Split, WithoutBars, HasLineEnd;
    var kept := Trim(WithoutBars(caption));
    KeptIsPart(caption);
    AddressExactly(href);
    var line, arg := ButtonBlock(caption, href), kept + " | " + href;
    assert line == "[[boton: " + arg + "]]";
    ArgIsTrimmed(kept, href);
    ArgHasNoLineEnd(kept, href);
    ButtonMatches(line, arg);
    TrimOfTrimmed(line);
    ButtonParts(kept, href);
  }

  lemma ArgIsTrimmed(caption: string, href: string)
    requires IsPart(caption) && IsPart(href)
    ensures IsTrimmed(caption + " | " + href)
  {
  }

  lemma {:induction false} KeptHasNoEnd(s: string)
    requires !HasLineEnd(s)
    ensures !HasLineEnd(WithoutBars(s)) && HasNoBar(WithoutBars(s))
  {
    if s != "" {
      assert forall k :: 0 <= k < |s[1..]| ==> s[1..][k] == s[k + 1];
      assert !HasLineEnd(s[1..]);
      KeptHasNoEnd(s[1..]);
    }
  }

  lemma KeptIsPart(caption: string)
    requires !HasLineEnd(caption) && Trim(WithoutBars(caption)) != ""
    ensures IsPart(Trim(WithoutBars(caption)))
  {
    hide Trim, WithoutBars, IsTrimmed;
    KeptHasNoEnd(caption);
    TrimIsTrimmed(WithoutBars(caption));
  }

  lemma WidgetChars(w: string)
    requires w in WIDGETS
    ensures w != "" && (forall k :: 0 <= k < |w| ==> 'a' <= w[k] <= 'z')
    ensures LowerName(w) == w && WidgetName(w) == Some(w) && w != "boton" && w != "bot\U{F3}n"
  {
    assert forall k :: 0 <= k < |w| ==> 'a' <= w[k] <= 'z';
    assert LowerName(w) == w;
    var n := seq(|w|, k requires 0 <= k < |w| => Plain(w[k]));
    assert n == w;
    assert |w| != 5;
  }

  lemma WidgetBack(w: string)
    requires w in WIDGETS
    ensures BlockOfLine(WidgetBlock(w)) == Some(Widget(w)) && IsTrimmed(WidgetBlock(w))
  {
    hide MatchBlock, Trim, IsHref, Split, LowerName, WidgetName;
    WidgetChars(w);
    var t := WidgetBlock(w);
    assert t[2..2 + |w|] == w && t[2 + |w|..] == "]]";
    assert forall k :: 2 <= k < 2 + |w| ==> t[k] == w[k - 2];
    MatchPieces(t, 2 + |w|);
    TrimOfTrimmed(t);
  }

  /** Lines that begin with two brackets are never fence lines. */
  lemma BracketsAreNoFence(line: string)
    requires StartsWith(line, "[[")
    ensures !IsFenceLine(line)
  {
    assert line[0] == line[..2][0] == '[';
    assert SkipSpaces(line, 0) == 0;
    assert 3 <= |line| ==> line[0..3][0] == '[';
  }

  /** A block line with a name of its own does not open a comparison. */
  lemma OtherNameDoesNotOpen(t: string, c: char)
    requires IsTrimmed(t) && |t| > 2 && t[2] == c && c != 'c' && c != 'C' && !IsSpace(c)
    ensures !IsOpenLine(t)
  {
    TrimOfTrimmed(t);
    hide Trim;
    assert SkipSpaces(t, 2) == 2;
    if 2 + |COMPARATIVA| <= |t| {
      assert t[2..2 + |COMPARATIVA|][0] == c;
      assert COMPARATIVA[0] == 'c';
    }
  }

  lemma CalculadoraDoesNotOpen(t: string)
    requires t == "[[calculadora]]"
    ensures !IsOpenLine(t)
  {
    TrimOfTrimmed(t);
    hide Trim;
    assert t[3] == 'a' && COMPARATIVA[1] == 'o';
    assert SkipSpaces(t, 2) == 2;
    if 2 + |COMPARATIVA| <= |t| {
      assert t[2..2 + |COMPARATIVA|][1] == t[3];
    }
  }

  // ---- comparisons -----------------------------------------------------

  /** No `|`, and no white space but the plain space. */
  predicate IsFlat(s: string) {
    forall k :: 0 <= k < |s| ==> s[k] != '|' && (IsSpace(s[k]) ==> s[k] == ' ')
  }

  lemma {:induction false} CollapseIsFlat(s: string)
    ensures IsFlat(Collapse(s))
  {
    hide IsSpace;
    if s != "" {
      CollapseIsFlat(s[1..]);
    }
  }

  /** Whatever it is given, `clean` leaves a trimmed text on one line and without separators. */
  lemma CleanIsFlat(s: string)
    ensures IsFlat(Clean(s)) && IsTrimmed(Clean(s))
  {
    hide Collapse, Trim, IsTrimmed;
    CollapseIsFlat(s);
    TrimIsTrimmed(Collapse(s));
  }

  predicate IsWord(w: string) {
    w != "" && forall k :: 0 <= k < |w| ==> !IsBarOrSpace(w[k])
  }

  predicate IsGap(g: string) {
    forall k :: 0 <= k < |g| ==> IsBarOrSpace(g[k])
  }

  /** Words, each followed by its gap of bars and white space; only the last gap may be empty. */
  function Spaced(words: seq<string>, gaps: seq<string>): string
    requires |gaps| == |words|
  {
    if words == [] then "" else words[0] + (gaps[0] + Spaced(words[1..], gaps[1..]))
  }

  predicate AreGaps(gaps: seq<string>) {
    (forall k :: 0 <= k < |gaps| ==> IsGap(gaps[k])) && forall k :: 0 <= k < |gaps| - 1 ==> gaps[k] != ""
  }

  lemma {:induction false} CollapseGap(g: string, rest: string)
    requires IsGap(g) && (rest == "" || !IsBarOrSpace(rest[0]))
    ensures Collapse(g + rest) == (if g == "" then "" else " ") + Collapse(rest)
  {
    if g == "" {
      assert g + rest == rest;
    } else {
      assert (g + rest)[1..] == g[1..] + rest;
      CollapseGap(g[1..], rest);
      assert |g| == 1 ==> g[1..] + rest == rest;
    }
  }

  lemma {:induction false} CollapseWord(w: string, rest: string)
    requires forall k :: 0 <= k < |w| ==> !IsBarOrSpace(w[k])
    ensures Collapse(w + rest) == w + Collapse(rest)
  {
    if w == "" {
      assert w + rest == rest;
    } else {
      assert (w + rest)[1..] == w[1..] + rest;
      CollapseWord(w[1..], rest);
      assert w == [w[0]] + w[1..];
    }
  }

  lemma {:induction false} CollapseSpaced(words: seq<string>, gaps: seq<string>)
    requires |gaps| == |words| && words != [] && AreGaps(gaps)
    requires forall k :: 0 <= k < |words| ==> IsWord(words[k])
    ensures Collapse(Spaced(words, gaps)) == Join(words, " ") + (if gaps[|gaps| - 1] == "" then "" else " ")
    decreases |words|
  {
    hide Collapse, IsBarOrSpace;
    var rest := Spaced(words[1..], gaps[1..]);
    assert IsWord(words[0]) && IsGap(gaps[0]);
    assert |words| > 1 ==> IsWord(words[1]) && rest[0] == words[1][0];
    CollapseWord(words[0], gaps[0] + rest);
    CollapseGap(gaps[0], rest);
    if |words| == 1 {
      NothingCollapses();
    } else {
      CollapseSpaced(words[1..], gaps[1..]);
      assert gaps[1..][|gaps| - 2] == gaps[|gaps| - 1];
    }
  }

  lemma NothingCollapses()
    ensures Collapse("") == ""
  {
  }

  lemma {:induction false} JoinedEnds(words: seq<string>)
    requires words != [] && forall k :: 0 <= k < |words| ==> IsWord(words[k])
    ensures var t := Join(words, " "); t != "" && !IsBarOrSpace(t[0]) && !IsBarOrSpace(t[|t| - 1])
    decreases |words|
  {
    hide IsBarOrSpace;
    assert IsWord(words[0]);
    if |words| > 1 {
      JoinedEnds(words[1..]);
    }
  }

  /** Cleaned, a text is its words with one space between them, whatever bars and white space it had. */
  lemma CleanExactly(lead: string, words: seq<string>, gaps: seq<string>)
    requires IsGap(lead) && |gaps| == |words| && AreGaps(gaps)
    requires forall k :: 0 <= k < |words| ==> IsWord(words[k])
    ensures Clean(lead + Spaced(words, gaps)) == Join(words, " ")
  {
    hide Collapse, Trim, Join, IsWord, IsBarOrSpace, IsGap, AreGaps, Spaced;
    if words == [] {
      NoWords(lead, gaps);
    } else {
      SpacedFront(words, gaps);
      CollapseGap(lead, Spaced(words, gaps));
      CollapseSpaced(words, gaps);
      JoinedIsTrimmed(words);
      PaddedTrims(lead == "", Join(words, " "), gaps[|gaps| - 1] == "");
    }
  }

  lemma NoWords(lead: string, gaps: seq<string>)
    requires IsGap(lead) && gaps == []
    ensures Clean(lead + Spaced([], gaps)) == Join([], " ")
  {
    hide Collapse, Trim;
    NothingCollapses();
    CollapseGap(lead, "");
    var blank := if lead == "" then "" else " ";
    assert blank + "" == blank;
    BlankTrims(blank);
  }

  lemma PaddedTrims(bare: bool, s: string, ends: bool)
    requires IsTrimmed(s)
    ensures Trim((if bare then "" else " ") + (s + (if ends then "" else " "))) == s
  {
    hide Trim, IsTrimmed;
    OneSpace();
    var first, last := if bare then "" else " ", if ends then "" else " ";
    assert first + (s + last) == first + s + last;
    TrimPadded(first, s, last);
  }

  lemma OneSpace()
    ensures AllSpace("") && AllSpace(" ")
  {
  }

  lemma BlankTrims(blank: string)
    requires blank == "" || blank == " "
    ensures Trim(blank) == ""
  {
  }

  lemma SpacedFront(words: seq<string>, gaps: seq<string>)
    requires |gaps| == |words| && words != [] && IsWord(words[0])
    ensures Spaced(words, gaps) != "" && !IsBarOrSpace(Spaced(words, gaps)[0])
  {
    assert Spaced(words, gaps)[0] == words[0][0];
  }

  lemma JoinedIsTrimmed(words: seq<string>)
    requires words != [] && forall k :: 0 <= k < |words| ==> IsWord(words[k])
    ensures IsTrimmed(Join(words, " "))
  {
    hide Join, IsSpace;
    JoinedEnds(words);
  }

  lemma FlatHasNoBreak(s: string)
    requires IsFlat(s)
    ensures '|' !in s && '\n' !in s
  {
  }

  /** The reader cuts a printed column back into its three cleaned texts, whatever they were. */
  lemma ColumnParts(c: Column)
    ensures TrimAll(Split(ColumnLine(c), '|'))
         == [Clean(OrEmpty(c.imageUrl)), Clean(c.title), Clean(OrEmpty(c.subtitle))]
  {
    hide Clean, Trim, IsFlat, IsTrimmed;
    var a, b, d := Clean(OrEmpty(c.imageUrl)), Clean(c.title), Clean(OrEmpty(c.subtitle));
    CleanIsFlat(OrEmpty(c.imageUrl));
    CleanIsFlat(c.title);
    CleanIsFlat(OrEmpty(c.subtitle));
    ThreeParts(a, b, d);
  }

  lemma ThreeParts(a: string, b: string, d: string)
    requires IsFlat(a) && IsFlat(b) && IsFlat(d) && IsTrimmed(a) && IsTrimmed(b) && IsTrimmed(d)
    ensures TrimAll(Split(a + " | " + b + " | " + d, '|')) == [a, b, d]
  {
    hide Trim, Split, IsFlat, IsTrimmed;
    FlatHasNoBreak(a);
    FlatHasNoBreak(b);
    FlatHasNoBreak(d);
    var p, q, r := a + " ", " " + b + " ", " " + d;
    assert a + " | " + b + " | " + d == p + ['|'] + (q + ['|'] + r);
    SplitFirst(p, q + ['|'] + r, '|');
    SplitFirst(q, r, '|');
    SplitPiece(r, '|');
    assert p == "" + a + " " && r == " " + d + "";
    TrimPadded("", a, " ");
    TrimPadded(" ", b, " ");
    TrimPadded(" ", d, "");
  }

  lemma ColumnBack(c: Column)
    requires IsCleanColumn(c)
    ensures ParseColumn(ColumnLine(c)) == Some(c)
  {
    hide Trim, Split, Clean, StartsLike, ColumnLine;
    ColumnParts(c);
    NothingToClean();
  }

  lemma NothingToClean()
    ensures Clean("") == ""
  {
  }

  /** A printed column is neither blank nor a closing line. */
  lemma ColumnLineIsPlain(c: Column)
    requires IsCleanColumn(c)
    ensures Trim(ColumnLine(c)) != "" && !IsCloseLine(ColumnLine(c))
  {
    hide Trim, ComparativaFrom, Clean;
    NothingToClean();
    var line, a := ColumnLine(c), Clean(OrEmpty(c.imageUrl));
    if c.imageUrl.Some? {
      assert LowerAscii(a[0]) == "https://"[0];
      assert line[0] == a[0];
      FrontOfTrim(line, 0);
    } else {
      assert a == "" && line[0] == ' ' && line[1] == '|';
      FrontOfTrim(line, 1);
    }
    assert Trim(line)[0] != '[';
    assert 2 <= |Trim(line)| ==> Trim(line)[..2][0] != '[';
  }

  lemma {:induction false} ColumnsBack(columns: seq<Column>)
    requires forall k :: 0 <= k < |columns| ==> IsCleanColumn(columns[k])
    ensures ParseColumns(ColumnLines(columns)) == Some(columns)
  {
    hide ParseColumn, Trim, IsCleanColumn, ColumnLine, IsCloseLine;
    var lines := ColumnLines(columns);
    if columns != [] {
      var n := |columns| - 1;
      assert lines[..n] == ColumnLines(columns[..n]);
      ColumnsBack(columns[..n]);
      ColumnBack(columns[n]);
      ColumnLineIsPlain(columns[n]);
      assert columns == columns[..n] + [columns[n]];
    }
  }

  lemma ComparativaStands(t: string, p: nat)
    requires p + 13 == |t| && t[p..p + 11] == COMPARATIVA && t[p + 11..] == "]]"
    ensures ComparativaFrom(t, p)
  {
    assert t[p] == COMPARATIVA[0] && t[p + 11] == t[p + 11..][0];
    assert SkipSpaces(t, p) == p;
    assert SkipSpaces(t, p + 11) == p + 11;
  }

  lemma Opens(open: string)
    requires open == OPEN
    ensures IsOpenLine(open) && !IsFenceLine(open) && '\n' !in open
  {
    hide ComparativaFrom, IsFenceLine;
    TrimOfTrimmed(open);
    hide Trim;
    assert open[2..13] == COMPARATIVA && open[13..] == "]]";
    ComparativaStands(open, 2);
    BracketsAreNoFence(open);
  }

  lemma Closes(close: string)
    requires close == CLOSE
    ensures IsCloseLine(close) && '\n' !in close
  {
    hide ComparativaFrom, Trim;
    TrimOfTrimmed(close);
    assert close[3..14] == COMPARATIVA && close[14..] == "]]" && close[2] == '/';
    ComparativaStands(close, 3);
    assert SkipSpaces(close, 2) == 2;
  }

  lemma CloseIsFound(columns: seq<Column>, rest: seq<string>)
    requires forall k :: 0 <= k < |columns| ==> IsCleanColumn(columns[k])
    ensures FindClose(ColumnLines(columns) + [CLOSE] + rest) == |columns|
  {
    hide IsCleanColumn, IsCloseLine, ColumnLine, Trim;
    var lines := ColumnLines(columns) + [CLOSE] + rest;
    var marks := seq(|lines|, k requires 0 <= k < |lines| => IsCloseLine(lines[k]));
    forall k | 0 <= k < |columns| ensures !marks[k] {
      ColumnLineIsPlain(columns[k]);
    }
    Closes(CLOSE);
    assert marks[|columns|];
  }

  lemma ComparisonBack(columns: seq<Column>, rest: seq<string>)
    requires IsPrintable(Comparison(columns))
    ensures BlockAt(ComparisonLines(columns) + rest) == Some((Comparison(columns), |columns| + 2))
  {
    hide IsCleanColumn, IsCloseLine, IsOpenLine, ColumnLines, ParseColumns, FindClose, BlockOfLine;
    var lines, body := ComparisonLines(columns) + rest, ColumnLines(columns);
    assert lines[0] == OPEN && lines[1..] == body + [CLOSE] + rest;
    CloseIsFound(columns, rest);
    assert lines[1..1 + |columns|] == body;
    ColumnsBack(columns);
    Opens(OPEN);
  }

  // ---- whole posts -----------------------------------------------------

  /** The lines that a block prints. */
  function LinesOfBlock(b: Block): (r: seq<string>)
    ensures r != []
  {
    match b
    case Markdown(text) => Split(text, '\n')
    case Comparison(columns) => ComparisonLines(columns)
    case _ => [Print(b)]
  }

  function PostLines(blocks: seq<Block>): (r: seq<string>)
    ensures blocks != [] ==> r != []
  {
    if blocks == [] then [] else LinesOfBlock(blocks[0]) + PostLines(blocks[1..])
  }

  /** A button or a widget prints one line that the scanner takes for that block alone. */
  lemma OneLineBack(b: Block)
    requires IsPrintable(b) && (b.Button? || b.Widget?)
    ensures var line := Print(b);
            BlockOfLine(line) == Some(b) && !IsOpenLine(line) && !IsFenceLine(line) && '\n' !in line
  {
    hide BlockOfLine, IsOpenLine, IsFenceLine, ButtonBlock, WidgetBlock, IsAddress, IsTrimmed;
    match b {
      case Button(caption, href) => ButtonOnItsLine(caption, href);
      case Widget(w) => WidgetOnItsLine(w);
    }
  }

  lemma ButtonOnItsLine(caption: string, href: string)
    requires IsPrintable(Button(caption, href))
    ensures var line := ButtonBlock(caption, href);
            && BlockOfLine(line) == Some(Button(caption, href))
            && !IsOpenLine(line) && !IsFenceLine(line) && '\n' !in line
  {
    var line, arg := ButtonBlock(caption, href), caption + " | " + href;
    hide BlockOfLine, IsOpenLine, IsFenceLine, ButtonBlock, IsAddress, IsTrimmed, MatchBlock;
    ButtonBack(caption, href);
    ButtonLine(caption, href);
    ButtonShape(line, arg);
    hide IsNameChar;
    OtherNameDoesNotOpen(line, 'b');
    BracketsAreNoFence(line);
    ArgHasNoLineEnd(caption, href);
    NoBreakInButton(line, arg);
  }

  lemma NoBreakInButton(line: string, arg: string)
    requires line == "[[boton: " + arg + "]]" && !HasLineEnd(arg)
    ensures '\n' !in line
  {
    forall k | 0 <= k < |line| ensures line[k] != '\n' {
      if 9 <= k < 9 + |arg| {
        assert line[k] == arg[k - 9];
      }
    }
  }

  lemma WidgetOnItsLine(w: string)
    requires w in WIDGETS
    ensures var line := WidgetBlock(w);
            && BlockOfLine(line) == Some(Widget(w))
            && !IsOpenLine(line) && !IsFenceLine(line) && '\n' !in line
  {
    hide BlockOfLine, IsOpenLine, IsFenceLine, IsTrimmed, LowerName, WidgetName;
    var line := WidgetBlock(w);
    WidgetBack(w);
    WidgetChars(w);
    assert line[2] == w[0] && line[..2] == "[[";
    BracketsAreNoFence(line);
    forall k | 0 <= k < |line| ensures line[k] != '\n' {
      if 2 <= k < 2 + |w| {
        assert line[k] == w[k - 2];
      }
    }
    if w == "calculadora" {
      CalculadoraDoesNotOpen(line);
    } else {
      OtherNameDoesNotOpen(line, w[0]);
    }
  }

  /** A printed block that is not text is read first, whole, and nothing after it is touched. */
  lemma BlockFirst(b: Block, rest: seq<string>)
    requires IsPrintable(b) && !b.Markdown?
    ensures !IsFenceLine(LinesOfBlock(b)[0])
    ensures BlockAt(LinesOfBlock(b) + rest) == Some((b, |LinesOfBlock(b)|))
  {
    hide IsFenceLine, IsOpenLine, BlockOfLine, FindClose, ComparisonOf, ColumnLines;
    var lines := LinesOfBlock(b);
    if b.Comparison? {
      hide BlockAt;
      ComparisonBack(b.columns, rest);
      Opens(OPEN);
      assert lines[0] == OPEN;
    } else {
      OneLineBack(b);
      assert (lines + rest)[0] == Print(b);
    }
  }

  lemma BlockScanned(b: Block, rest: seq<string>, buffer: seq<string>)
    requires IsPrintable(b) && !b.Markdown?
    ensures BlocksOf(Segments(LinesOfBlock(b) + rest, false, buffer))
         == TextBlock(buffer) + ([b] + BlocksOf(Segments(rest, false, [])))
  {
    hide IsFenceLine, BlockAt, LinesOfBlock, BlocksOf, TextBlock, IsPrintable;
    var own := LinesOfBlock(b);
    var lines := own + rest;
    BlockFirst(b, rest);
    assert lines[0] == own[0] && lines[..|own|] == own && lines[|own|..] == rest;
    TwoSegments(Run(buffer), Made(own, b), Segments(rest, false, []));
  }

  /** Printed text joins the lines read before it, up to where all its fences are closed. */
  lemma {:induction false} TextScanned(lines: seq<string>, inFence: bool, rest: seq<string>, buffer: seq<string>)
    requires IsText(lines, inFence)
    ensures Segments(lines + rest, inFence, buffer) == Segments(rest, false, buffer + lines)
    decreases |lines|
  {
    hide IsFenceLine, IsOpenLine, BlockOfLine, FindClose, ComparisonOf;
    if lines == [] {
      assert lines + rest == rest && buffer + lines == buffer;
    } else {
      var fenced := inFence != IsFenceLine(lines[0]);
      assert (lines + rest)[0] == lines[0] && (lines + rest)[1..] == lines[1..] + rest;
      TextScanned(lines[1..], fenced, rest, buffer + [lines[0]]);
      assert buffer + [lines[0]] + lines[1..] == buffer + lines;
      assert fenced || BlockAt(lines + rest).None?;
    }
  }

  lemma IsPostTail(blocks: seq<Block>)
    requires IsPost(blocks) && blocks != []
    ensures IsPost(blocks[1..])
    ensures blocks[0].Markdown? && |blocks| > 1 ==> !blocks[1].Markdown?
  {
    hide IsPrintable;
  }

  /** The scan of a printed post gives its blocks. */
  lemma {:induction false} PostScanned(blocks: seq<Block>)
    requires IsPost(blocks)
    ensures BlocksOf(Segments(PostLines(blocks), false, [])) == blocks
    decreases |blocks|, 1
  {
    hide IsPost, IsPrintable, BlocksOf, Segments, TextBlock, LinesOfBlock;
    EmptyRun();
    if blocks == [] || !blocks[0].Markdown? {
      ScannedAfter(blocks, []);
    } else {
      var lines := LinesOfBlock(blocks[0]);
      FirstIsText(blocks);
      IsPostTail(blocks);
      TextScanned(lines, false, PostLines(blocks[1..]), []);
      assert [] + lines == lines;
      ScannedAfter(blocks[1..], lines);
    }
  }

  lemma EmptyRun()
    ensures TextBlock([]) == []
  {
  }

  lemma FirstIsText(blocks: seq<Block>)
    requires IsPost(blocks) && blocks != [] && blocks[0].Markdown?
    ensures var lines := LinesOfBlock(blocks[0]); IsText(lines, false) && TextBlock(lines) == [blocks[0]]
  {
    hide Trim, IsText, Join, Split;
    assert IsPrintable(blocks[0]);
    JoinSplit(blocks[0].text, '\n');
  }

  /** The scan of a post that begins with no text, after some lines of text. */
  lemma {:induction false} ScannedAfter(blocks: seq<Block>, buffer: seq<string>)
    requires IsPost(blocks) && (blocks == [] || !blocks[0].Markdown?)
    ensures BlocksOf(Segments(PostLines(blocks), false, buffer)) == TextBlock(buffer) + blocks
    decreases |blocks|, 0
  {
    hide IsPrintable, BlocksOf, TextBlock, LinesOfBlock;
    if blocks == [] {
      LastRun(buffer);
    } else {
      hide Segments;
      IsPostTail(blocks);
      assert IsPrintable(blocks[0]);
      hide IsPost;
      PostScanned(blocks[1..]);
      BlockScanned(blocks[0], PostLines(blocks[1..]), buffer);
      assert [blocks[0]] + blocks[1..] == blocks;
    }
  }

  // ---- lines of a post -------------------------------------------------

  lemma {:induction false} JoinTwo(a: seq<string>, b: seq<string>, sep: string)
    requires a != [] && b != []
    ensures Join(a + b, sep) == Join(a, sep) + sep + Join(b, sep)
    decreases |a|
  {
    if |a| == 1 {
      assert (a + b)[1..] == b;
    } else {
      assert (a + b)[1..] == a[1..] + b;
      JoinTwo(a[1..], b, sep);
    }
  }

  lemma BlockJoined(b: Block)
    ensures Join(LinesOfBlock(b), "\n") == Print(b)
  {
    hide ButtonBlock, WidgetBlock, ComparisonLines, Split;
    match b {
      case Markdown(text) => JoinSplit(text, '\n');
      case Comparison(columns) => hide Join;
      case _ =>
    }
  }

  lemma {:induction false} PostJoined(blocks: seq<Block>)
    requires blocks != []
    ensures Join(PostLines(blocks), "\n") == PrintPost(blocks)
  {
    hide Print, LinesOfBlock;
    var rest := blocks[1..];
    BlockJoined(blocks[0]);
    assert PrintAll(blocks)[1..] == PrintAll(rest);
    if rest == [] {
      assert PostLines(blocks) == LinesOfBlock(blocks[0]);
    } else {
      PostJoined(rest);
      JoinTwo(LinesOfBlock(blocks[0]), PostLines(rest), "\n");
    }
  }

  lemma ColumnLineHasNoBreak(c: Column)
    ensures '\n' !in ColumnLine(c)
  {
    hide Clean, IsFlat, IsTrimmed;
    var a, b, d := Clean(OrEmpty(c.imageUrl)), Clean(c.title), Clean(OrEmpty(c.subtitle));
    CleanIsFlat(OrEmpty(c.imageUrl));
    CleanIsFlat(c.title);
    CleanIsFlat(OrEmpty(c.subtitle));
    FlatHasNoBreak(a);
    FlatHasNoBreak(b);
    FlatHasNoBreak(d);
  }

  lemma ComparisonHasNoBreak(columns: seq<Column>, line: string)
    requires line in ComparisonLines(columns)
    ensures '\n' !in line
  {
    hide ColumnLine, IsOpenLine, IsCloseLine, IsFenceLine;
    Opens(OPEN);
    Closes(CLOSE);
    if line != OPEN && line != CLOSE {
      assert line in ColumnLines(columns);
      var k :| 0 <= k < |columns| && line == ColumnLines(columns)[k];
      ColumnLineHasNoBreak(columns[k]);
    }
  }

  lemma BlockHasNoBreak(b: Block, line: string)
    requires IsPrintable(b) && line in LinesOfBlock(b)
    ensures '\n' !in line
  {
    hide ComparisonLines, ButtonBlock, WidgetBlock, IsPrintable, BlockOfLine, IsOpenLine, IsFenceLine;
    match b {
      case Markdown(text) =>
      case Comparison(columns) => ComparisonHasNoBreak(columns, line);
      case _ => OneLineBack(b);
    }
  }

  lemma {:induction false} PostHasNoBreak(blocks: seq<Block>)
    requires IsPost(blocks)
    ensures forall line | line in PostLines(blocks) :: '\n' !in line
  {
    hide IsPrintable, LinesOfBlock;
    if blocks != [] {
      IsPostTail(blocks);
      assert IsPrintable(blocks[0]);
      hide IsPost;
      forall line | line in LinesOfBlock(blocks[0]) ensures '\n' !in line {
        BlockHasNoBreak(blocks[0], line);
      }
      PostHasNoBreak(blocks[1..]);
    }
  }

  /** Printing a post and splitting what was printed gives the same blocks. */
  lemma BlogRoundTrip(blocks: seq<Block>)
    requires IsPost(blocks)
    ensures SplitContent(PrintPost(blocks)) == blocks
  {
    hide IsPost, Segments, BlocksOf, PostLines, TextBlock;
    if blocks == [] {
      EmptyPost();
    } else {
      hide PrintPost;
      PostHasNoBreak(blocks);
      PostJoined(blocks);
      SplitJoin(PostLines(blocks), '\n');
      PostScanned(blocks);
    }
  }

  lemma EmptyPost()
    ensures SplitContent("") == []
  {
    hide BlockAt, IsFenceLine, BlocksOf;
    var line := "";
    assert Split(line, '\n') == [line];
    EmptyLine(line);
    assert [line][1..] == [] && [] + [line] == [line];
    LastRun([line]);
  }

  lemma EmptyLine(line: string)
    requires line == ""
    ensures !IsFenceLine(line) && BlockAt([line]).None? && TextBlock([line]) == []
  {
    hide ComparativaFrom, ComparisonOf, FindClose;
  }
}
