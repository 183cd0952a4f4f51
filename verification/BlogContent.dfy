/**
 * The block language of blog posts: a scanner that cuts Markdown into texts, buttons, widgets
 * and comparison tables, and the printers of its blocks.
 */
module BlogContent {
  import opened Text

  // ---- links -----------------------------------------------------------

  datatype WebLink = Section(section: string) | PageLink(kind: string, slug: string)

  const SECTIONS: set<string> := {"precios", "reservar", "contacto", "calculadora", "blog"}
  const PAGE_KINDS: set<string> := {"local", "pagina", "post", "promo"}

  predicate IsSlugChar(c: char) {
    'a' <= c <= 'z' || IsDigit(c) || c == '-'
  }

  predicate IsSlug(s: string) {
    1 <= |s| <= 120 && s[0] != '-' && forall k :: 0 <= k < |s| ==> IsSlugChar(s[k])
  }

  /** `parseWebLink`. */
  function ParseWebLink(href: string): Option<WebLink> {
    if !StartsWith(href, "web:") then None
    else
      var rest := Trim(href[4..]);
      if rest in SECTIONS then Some(Section(rest))
      else
        var p := Split(rest, '/');
        if |p| != 2 || !IsSlug(p[1]) || p[0] !in PAGE_KINDS then None else Some(PageLink(p[0], p[1]))
  }

  predicate IsWebLink(l: WebLink) {
    match l
    case Section(s) => s in SECTIONS
    case PageLink(kind, slug) => kind in PAGE_KINDS && IsSlug(slug)
  }

  /** `webLinkHref`. */
  function WebLinkHref(l: WebLink): string {
    match l
    case Section(s) => "web:" + s
    case PageLink(kind, slug) => "web:" + (kind + "/" + slug)
  }

  lemma SectionsAreWords(s: string)
    requires s in SECTIONS || s in PAGE_KINDS
    ensures s != "" && '/' !in s && IsTrimmed(s)
  {
  }

  /** A printed link reads back as itself. */
  lemma WebLinkRoundTrip(l: WebLink)
    requires IsWebLink(l)
    ensures ParseWebLink(WebLinkHref(l)) == Some(l)
  {
    var href := WebLinkHref(l);
    assert href[..4] == "web:";
    match l {
      case Section(s) =>
        assert href[4..] == s;
        SectionsAreWords(s);
        TrimOfTrimmed(s);
      case PageLink(kind, slug) =>
        var rest := kind + "/" + slug;
        assert href[4..] == rest;
        SectionsAreWords(kind);
        SlugEnds(kind, slug);
        TrimOfTrimmed(rest);
        SplitFirst(kind, slug, '/');
        SplitPiece(slug, '/');
    }
  }

  /** A link is only read when it is one of the known destinations, and prints as it was written. */
  lemma ParsedLinkIsKnown(href: string)
    requires ParseWebLink(href).Some?
    ensures var l := ParseWebLink(href).value;
            IsWebLink(l) && WebLinkHref(l) == "web:" + Trim(href[4..])
  {
    hide Trim, IsSlug;
    var rest := Trim(href[4..]);
    if rest !in SECTIONS {
      var p := Split(rest, '/');
      JoinSplit(rest, '/');
      assert p[1..] == [p[1]];
      assert Join(p, "/") == p[0] + "/" + p[1];
    }
  }

  lemma SlugEnds(kind: string, slug: string)
    requires kind in PAGE_KINDS && IsSlug(slug)
    ensures var rest := kind + "/" + slug; IsTrimmed(rest) && '/' !in slug && rest !in SECTIONS
  {
    var rest := kind + "/" + slug;
    SectionsAreWords(kind);
    assert rest[|kind|] == '/';
    assert '/' in rest;
    assert rest[0] == kind[0] && rest[|rest| - 1] == slug[|slug| - 1];
    if rest in SECTIONS {
      SectionsAreWords(rest);
    }
  }

  predicate StartsLike(s: string, prefix: string) {
    |prefix| <= |s| && forall k :: 0 <= k < |prefix| ==> LowerAscii(s[k]) == prefix[k]
  }

  /** `isExternalHref`. */
  predicate IsExternalHref(href: string) {
    StartsLike(href, "http://") || StartsLike(href, "https://")
  }

  predicate IsHref(href: string) {
    ParseWebLink(href).Some? || IsExternalHref(href)
  }

  /** `web:` and, with white space around it, the name of a section or the kind and slug of a page. */
  ghost predicate IsWebAddress(href: string) {
    exists a, rest, b :: AllSpace(a) && AllSpace(b) && href == "web:" + (a + rest + b) && IsDestination(rest)
  }

  ghost predicate IsDestination(rest: string) {
    || rest == "precios" || rest == "reservar" || rest == "contacto" || rest == "calculadora" || rest == "blog"
    || exists kind, slug ::
         && rest == kind + "/" + slug
         && (kind == "local" || kind == "pagina" || kind == "post" || kind == "promo")
         && 1 <= |slug| <= 120 && slug[0] != '-'
         && forall k :: 0 <= k < |slug| ==> 'a' <= slug[k] <= 'z' || '0' <= slug[k] <= '9' || slug[k] == '-'
  }

  /** `http`, in any letter case, perhaps with an `s`, and `://`. */
  predicate IsHttpAddress(href: string) {
    && 7 <= |href|
    && (href[0] == 'h' || href[0] == 'H') && (href[1] == 't' || href[1] == 'T')
    && (href[2] == 't' || href[2] == 'T') && (href[3] == 'p' || href[3] == 'P')
    && (href[4..7] == "://" || ((href[4] == 's' || href[4] == 'S') && 8 <= |href| && href[5..8] == "://"))
  }

  ghost predicate IsAddress(href: string) {
    IsWebAddress(href) || IsHttpAddress(href)
  }

  lemma DestinationExactly(l: WebLink)
    requires IsWebLink(l)
    ensures IsDestination(WebLinkHref(l)[4..])
  {
    var rest := WebLinkHref(l)[4..];
    match l {
      case Section(s) => assert rest == s;
      case PageLink(kind, slug) => assert rest == kind + "/" + slug;
    }
  }

  lemma DestinationIsLink(rest: string) returns (l: WebLink)
    requires IsDestination(rest)
    ensures IsWebLink(l) && WebLinkHref(l) == "web:" + rest
  {
    if rest in SECTIONS {
      return Section(rest);
    }
    var kind, slug :|
      && rest == kind + "/" + slug && kind in PAGE_KINDS
      && 1 <= |slug| <= 120 && slug[0] != '-'
      && forall k :: 0 <= k < |slug| ==> 'a' <= slug[k] <= 'z' || '0' <= slug[k] <= '9' || slug[k] == '-';
    return PageLink(kind, slug);
  }

  lemma DestinationIsTrimmed(rest: string)
    requires IsDestination(rest)
    ensures IsTrimmed(rest)
  {
    var l := DestinationIsLink(rest);
    assert rest == WebLinkHref(l)[4..];
    match l {
      case Section(s) => assert rest == s; SectionsAreWords(s);
      case PageLink(kind, slug) => assert rest == kind + "/" + slug; SlugEnds(kind, slug);
    }
  }

  /** Only the text after `web:` without the white space around it matters. */
  lemma PaddedLink(a: string, rest: string, b: string)
    requires AllSpace(a) && AllSpace(b) && IsTrimmed(rest)
    ensures ParseWebLink("web:" + (a + rest + b)) == ParseWebLink("web:" + rest)
  {
    var padded, bare := "web:" + (a + rest + b), "web:" + rest;
    assert padded[..4] == "web:" && bare[..4] == "web:" && padded[4..] == a + rest + b && bare[4..] == rest;
    TrimPadded(a, rest, b);
    TrimOfTrimmed(rest);
    hide Trim, Split;
  }

  lemma WebAddressExactly(href: string)
    ensures ParseWebLink(href).Some? <==> IsWebAddress(href)
  {
    hide Trim, IsDestination, AllSpace, WebLinkHref;
    if ParseWebLink(href).Some? {
      var l := ParseWebLink(href).value;
      ParsedLinkIsKnown(href);
      DestinationExactly(l);
      TrimLeaves(href[4..]);
      var rest := Trim(href[4..]);
      assert WebLinkHref(l)[4..] == rest;
      var a, b :| AllSpace(a) && AllSpace(b) && href[4..] == a + rest + b;
      assert href == "web:" + href[4..];
    }
    if IsWebAddress(href) {
      hide ParseWebLink;
      var a, rest, b :| AllSpace(a) && AllSpace(b) && href == "web:" + (a + rest + b) && IsDestination(rest);
      DestinationIsTrimmed(rest);
      PaddedLink(a, rest, b);
      var l := DestinationIsLink(rest);
      WebLinkRoundTrip(l);
    }
  }

  lemma HttpAddressExactly(href: string)
    ensures IsExternalHref(href) <==> IsHttpAddress(href)
  {
    assert "http://"[..4] == "http" && "https://"[..4] == "http";
    assert 7 <= |href| ==> href[4..7] == [href[4], href[5], href[6]];
    assert 8 <= |href| ==> href[5..8] == [href[5], href[6], href[7]];
  }

  /** An address makes a button exactly when it is a page of the site or begins with `http://` or `https://`. */
  lemma AddressExactly(href: string)
    ensures IsHref(href) <==> IsAddress(href)
  {
    hide ParseWebLink, IsExternalHref, IsWebAddress, IsHttpAddress;
    WebAddressExactly(href);
    HttpAddressExactly(href);
  }

  // ---- blocks ----------------------------------------------------------

  datatype Column = Column(imageUrl: Option<string>, title: string, subtitle: Option<string>)

  datatype Block =
    | Markdown(text: string)
    | Button(caption: string, href: string)
    | Widget(widget: string)
    | Comparison(columns: seq<Column>)

  const WIDGETS: set<string> := {"calculadora", "tamanos", "locales"}
  const MIN_COLUMNS := 2
  const MAX_COLUMNS := 4

  function Take(s: string, n: nat): string {
    if |s| <= n then s else s[..n]
  }

  function OrNull(s: string): Option<string> {
    if s == "" then None else Some(s)
  }

  // ---- lines -----------------------------------------------------------

  /** `/^\s*(```|~~~)/`. */
  predicate IsFenceLine(line: string) {
    var p := SkipSpaces(line, 0);
    p + 3 <= |line| && (line[p..p + 3] == "```" || line[p..p + 3] == "~~~")
  }

  const COMPARATIVA := "comparativa"

  /** `comparativa`, in any letter case and with spaces around it, fills `t` from `p` to its `]]`. */
  predicate ComparativaFrom(t: string, p: nat)
    requires p <= |t|
  {
    var q := SkipSpaces(t, p);
    var e := q + |COMPARATIVA|;
    e <= |t| && StartsLike(t[q..e], COMPARATIVA) && t[SkipSpaces(t, e)..] == "]]"
  }

  predicate IsOpenLine(line: string) {
    var t := Trim(line);
    StartsWith(t, "[[") && ComparativaFrom(t, 2)
  }

  predicate IsCloseLine(line: string) {
    var t := Trim(line);
    StartsWith(t, "[[")
    && var p := SkipSpaces(t, 2); p < |t| && t[p] == '/' && ComparativaFrom(t, p + 1)
  }

  predicate IsNameChar(c: char) {
    || 'a' <= c <= 'z' || 'A' <= c <= 'Z'
    || c == '\U{F1}' || c == '\U{E1}' || c == '\U{E9}' || c == '\U{ED}' || c == '\U{F3}' || c == '\U{FA}'
  }

  function NameEnd(s: string, p: nat): (q: nat)
    requires p <= |s|
    ensures p <= q <= |s|
    ensures forall k :: p <= k < q ==> IsNameChar(s[k])
    ensures q == |s| || !IsNameChar(s[q])
    decreases |s| - p
  {
    if p < |s| && IsNameChar(s[p]) then NameEnd(s, p + 1) else p
  }

  function LowerName(s: string): string {
    seq(|s|, k requires 0 <= k < |s| => LowerAscii(s[k]))
  }

  /** Name and argument of a block line, as the regular expression reads the trimmed line. */
  function MatchBlock(t: string): Option<(string, string)> {
    if !StartsWith(t, "[[") then None
    else
      var p := SkipSpaces(t, 2);
      var e := NameEnd(t, p);
      var q := SkipSpaces(t, e);
      var name := LowerName(t[p..e]);
      if e == p then None
      else if q < |t| && t[q] == ':' then
        if |t| < q + 3 || t[|t| - 2..] != "]]" then None
        else
          var arg := Trim(t[q + 1..|t| - 2]);
          if HasLineEnd(arg) then None else Some((name, arg))
      else if t[q..] == "]]" then Some((name, ""))
      else None
  }

  function Plain(c: char): char {
    if c == '\U{F1}' then 'n' else if c == '\U{E1}' then 'a' else if c == '\U{E9}' then 'e'
    else if c == '\U{ED}' then 'i' else if c == '\U{F3}' then 'o' else if c == '\U{FA}' then 'u' else c
  }

  /** `widgetName`: the name without its accents. */
  function WidgetName(name: string): Option<string> {
    var n := seq(|name|, k requires 0 <= k < |name| => Plain(name[k]));
    if n in WIDGETS then Some(n) else None
  }

  function TrimAll(parts: seq<string>): (r: seq<string>)
    ensures |r| == |parts|
  {
    seq(|parts|, k requires 0 <= k < |parts| => Trim(parts[k]))
  }

  /** The button or widget that a line stands for. */
  function BlockOfLine(line: string): Option<Block> {
    var m := MatchBlock(Trim(line));
    if m.None? then None
    else
      var (name, arg) := m.value;
      if name == "boton" || name == "bot\U{F3}n" then
        var parts := TrimAll(Split(arg, '|'));
        if |parts| >= 2 && parts[0] != "" && parts[1] != "" && IsHref(parts[1])
        then Some(Button(Take(parts[0], 80), parts[1])) else None
      else
        var w := WidgetName(name);
        if w.Some? && arg == "" then Some(Widget(w.value)) else None
  }

  /** One line of a comparison: image, title and subtitle, or nothing when it is not valid. */
  function ParseColumn(line: string): Option<Column> {
    var p := TrimAll(Split(line, '|'));
    var image := p[0];
    var title := if |p| > 1 then p[1] else "";
    var subtitle := if |p| > 2 then p[2] else "";
    if title == "" || (image != "" && !StartsLike(image, "https://")) then None
    else Some(Column(OrNull(Take(image, 500)), Take(title, 120), OrNull(Take(subtitle, 200))))
  }

  /** The columns of the lines that are not blank; nothing when one of them is not valid. */
  function ParseColumns(lines: seq<string>): Option<seq<Column>> {
    if lines == [] then Some([])
    else
      var before, last := ParseColumns(lines[..|lines| - 1]), lines[|lines| - 1];
      if Trim(last) == "" || before.None? then before
      else
        var c := ParseColumn(last);
        if c.None? then None else Some(before.value + [c.value])
  }

  function ComparisonOf(lines: seq<string>): Option<seq<Column>> {
    var columns := ParseColumns(lines);
    if columns.Some? && MIN_COLUMNS <= |columns.value| <= MAX_COLUMNS then columns else None
  }

  /** `parseComparison`: gives up at the first line that is not valid. */
  method ParseComparison(lines: seq<string>) returns (r: Option<seq<Column>>)
    ensures r == ComparisonOf(lines)
  {
    hide ParseColumn, Trim;
    var columns: seq<Column> := [];
    for i := 0 to |lines|
      invariant ParseColumns(lines[..i]) == Some(columns)
    {
      assert lines[..i + 1][..i] == lines[..i];
      if Trim(lines[i]) != "" {
        var c := ParseColumn(lines[i]);
        if c.None? {
          StaysInvalid(lines, i + 1);
          return None;
        }
        columns := columns + [c.value];
      }
    }
    assert lines[..|lines|] == lines;
    r := if MIN_COLUMNS <= |columns| <= MAX_COLUMNS then Some(columns) else None;
  }

  lemma StaysInvalid(lines: seq<string>, i: nat)
    requires i <= |lines| && ParseColumns(lines[..i]).None?
    ensures ParseColumns(lines).None?
    decreases |lines| - i
  {
    hide ParseColumn, Trim;
    if i == |lines| {
      assert lines[..i] == lines;
    } else {
      assert lines[..i + 1][..i] == lines[..i];
      StaysInvalid(lines, i + 1);
    }
  }

  // ---- the scanner -----------------------------------------------------

  function FirstTrue(marks: seq<bool>): (j: nat)
    ensures j <= |marks| && (j < |marks| ==> marks[j])
    ensures forall k :: 0 <= k < j ==> !marks[k]
  {
    if marks == [] || marks[0] then 0 else 1 + FirstTrue(marks[1..])
  }

  /** The first closing line, or the end: what `findIndex` looks for after an opening line. */
  function FindClose(lines: seq<string>): (j: nat)
    ensures j <= |lines|
  {
    FirstTrue(seq(|lines|, k requires 0 <= k < |lines| => IsCloseLine(lines[k])))
  }

  /** The comparison that the first line opens: its columns and the place of its closing line. */
  function ComparisonAt(lines: seq<string>): (r: Option<(seq<Column>, nat)>)
    requires lines != []
    ensures r.Some? ==> 1 <= r.value.1 < |lines|
  {
    var close := 1 + FindClose(lines[1..]);
    if !IsOpenLine(lines[0]) || close >= |lines| then None
    else
      var columns := ComparisonOf(lines[1..close]);
      if columns.Some? then Some((columns.value, close)) else None
  }

  /** The block that starts at the first line, outside a fence, and the lines that it takes. */
  function BlockAt(lines: seq<string>): (r: Option<(Block, nat)>)
    requires lines != []
    ensures r.Some? ==> 1 <= r.value.1 <= |lines|
  {
    var c := ComparisonAt(lines);
    if c.Some? then Some((Comparison(c.value.0), c.value.1 + 1))
    else
      var b := BlockOfLine(lines[0]);
      if b.Some? then Some((b.value, 1)) else None
  }

  /** A stretch of the input: lines of text, or the lines that make a block. */
  datatype Segment = Run(lines: seq<string>) | Made(lines: seq<string>, block: Block)

  /** How the lines divide, with `buffer` read and not yet placed. */
  function Segments(lines: seq<string>, inFence: bool, buffer: seq<string>): seq<Segment>
    decreases |lines|
  {
    if lines == [] then [Run(buffer)]
    else
      var fenced := inFence != IsFenceLine(lines[0]);
      var made := if fenced then None else BlockAt(lines);
      if made.Some? then
        var (block, n) := made.value;
        [Run(buffer), Made(lines[..n], block)] + Segments(lines[n..], fenced, [])
      else Segments(lines[1..], fenced, buffer + [lines[0]])
  }

  /** A stretch of text is one block, unless it is blank. */
  function TextBlock(lines: seq<string>): seq<Block> {
    var text := Join(lines, "\n");
    if Trim(text) == "" then [] else [Markdown(text)]
  }

  function BlocksOf(segments: seq<Segment>): seq<Block> {
    if segments == [] then []
    else
      (match segments[0]
       case Run(lines) => TextBlock(lines)
       case Made(_, block) => [block])
      + BlocksOf(segments[1..])
  }

  function SplitContent(markdown: string): seq<Block> {
    BlocksOf(Segments(Split(markdown, '\n'), false, []))
  }

  /** One step of the scan. */
  lemma SegmentsStep(lines: seq<string>, inFence: bool, buffer: seq<string>)
    requires lines != []
    ensures var fenced := inFence != IsFenceLine(lines[0]);
            var made := if fenced then None else BlockAt(lines);
            Segments(lines, inFence, buffer)
            == if made.Some? then
                 [Run(buffer), Made(lines[..made.value.1], made.value.0)]
                 + Segments(lines[made.value.1..], fenced, [])
               else Segments(lines[1..], fenced, buffer + [lines[0]])
  {
    hide IsFenceLine, BlockAt;
  }

  lemma TwoSegments(a: Segment, b: Segment, rest: seq<Segment>)
    ensures BlocksOf([a, b] + rest) == BlocksOf([a]) + (BlocksOf([b]) + BlocksOf(rest))
    ensures a.Run? ==> BlocksOf([a]) == TextBlock(a.lines)
    ensures b.Made? ==> BlocksOf([b]) == [b.block]
  {
    hide TextBlock;
    assert ([a, b] + rest)[1..] == [b] + rest && ([b] + rest)[1..] == rest;
    assert [a][1..] == [] && [b][1..] == [];
  }

  /** `splitBlogContent`. */
  method SplitBlogContent(markdown: string) returns (out: seq<Block>)
    ensures out == SplitContent(markdown)
  {
    hide Segments, BlockAt, TextBlock, BlocksOf, IsFenceLine, ComparisonOf, IsOpenLine, BlockOfLine;
    var lines := Split(markdown, '\n');
    out := [];
    var buffer: seq<string> := [];
    var inFence := false;
    var i := 0;
    assert lines[0..] == lines;
    while i < |lines|
      invariant i <= |lines|
      invariant out + BlocksOf(Segments(lines[i..], inFence, buffer)) == SplitContent(markdown)
    {
      var line, rest := lines[i], lines[i..];
      assert rest[1..] == lines[i + 1..] && rest[0] == line;
      SegmentsStep(rest, inFence, buffer);
      inFence := inFence != IsFenceLine(line);
      var block: Option<Block>, taken := None, 1;
      if !inFence {
        block, taken := FirstBlock(rest);
      }
      if block.Some? {
        TwoSegments(Run(buffer), Made(rest[..taken], block.value), Segments(rest[taken..], inFence, []));
        assert rest[taken..] == lines[i + taken..];
        out := out + TextBlock(buffer) + [block.value];
        buffer := [];
      } else {
        buffer := buffer + [line];
      }
      i := i + taken;
    }
    assert lines[i..] == [];
    NothingLeft(inFence, buffer);
    LastRun(buffer);
    out := out + TextBlock(buffer);
  }

  lemma NothingLeft(inFence: bool, buffer: seq<string>)
    ensures Segments([], inFence, buffer) == [Run(buffer)]
  {
  }

  lemma LastRun(buffer: seq<string>)
    ensures BlocksOf([Run(buffer)]) == TextBlock(buffer)
  {
    assert [Run(buffer)][1..] == [];
  }

  /** The part of the loop that looks for a block at the current line. */
  method FirstBlock(rest: seq<string>) returns (block: Option<Block>, taken: nat)
    requires rest != []
    ensures var made := BlockAt(rest);
            if made.Some? then block == Some(made.value.0) && taken == made.value.1 else block == None && taken == 1
  {
    hide IsOpenLine, BlockOfLine, ComparisonOf, FindClose;
    if IsOpenLine(rest[0]) {
      var close := 1 + FindClose(rest[1..]);
      if close < |rest| {
        var columns := ParseComparison(rest[1..close]);
        if columns.Some? {
          return Some(Comparison(columns.value)), close + 1;
        }
      }
    }
    return BlockOfLine(rest[0]), 1;
  }

  // ---- nothing is lost -------------------------------------------------

  function LinesOf(segments: seq<Segment>): seq<string> {
    if segments == [] then [] else segments[0].lines + LinesOf(segments[1..])
  }

  function FenceAfter(lines: seq<string>, inFence: bool): bool {
    if lines == [] then inFence
    else FenceAfter(lines[..|lines| - 1], inFence) != IsFenceLine(lines[|lines| - 1])
  }

  /** Every block begins after an even number of fence lines, those inside blocks counted too. */
  predicate OutsideFences(segments: seq<Segment>, inFence: bool) {
    segments == []
    || (match segments[0]
        case Run(lines) => OutsideFences(segments[1..], FenceAfter(lines, inFence))
        case Made(lines, _) => !inFence && OutsideFences(segments[1..], FenceAfter(lines, inFence)))
  }

  /** Stretches of text and blocks alternate, text at both ends. */
  predicate Alternates(segments: seq<Segment>) {
    && |segments| % 2 == 1
    && forall k :: 0 <= k < |segments| ==> (segments[k].Run? <==> k % 2 == 0)
  }

  lemma BlockLineIsNoFence(line: string)
    requires IsFenceLine(line)
    ensures !IsOpenLine(line) && BlockOfLine(line).None?
  {
    var p := SkipSpaces(line, 0);
    assert line[p] == line[p..p + 3][0];
    assert line[p] == '`' || line[p] == '~';
    var t := Trim(line);
    assert t == "" || t[0] == line[p];
    assert 2 <= |t| ==> t[..2][0] == t[0] != '[';
    hide IsFenceLine, ComparativaFrom, IsHref, WidgetName, Split, Trim;
  }

  lemma MadeOutsideFence(lines: seq<string>)
    requires lines != [] && BlockAt(lines).Some?
    ensures !IsFenceLine(lines[0])
  {
    hide IsFenceLine, IsOpenLine, BlockOfLine, ComparisonOf, FindClose;
    if IsFenceLine(lines[0]) {
      BlockLineIsNoFence(lines[0]);
    }
  }

  // ---- no fence inside a block -----------------------------------------

  /** No line of a valid comparison is a fence line: its first text would be neither empty nor a web address. */
  lemma ColumnIsNoFence(line: string)
    requires IsFenceLine(line)
    ensures Trim(line) != "" && ParseColumn(line).None?
  {
    var p := SkipSpaces(line, 0);
    assert line[p] == line[p..p + 3][0];
    assert line[p] == '`' || line[p] == '~';
    hide IsFenceLine;
    FirstPiece(line, '|', p);
    var first := Split(line, '|')[0];
    FrontOfTrim(line, p);
    FrontOfTrim(first, p);
    hide Split, Trim, IsSpace;
    assert "https://"[0] == 'h';
  }

  lemma FrontOfTrim(s: string, p: nat)
    requires p < |s| && !IsSpace(s[p]) && forall k :: 0 <= k < p ==> IsSpace(s[k])
    ensures Trim(s) != "" && Trim(s)[0] == s[p]
  {
    assert SkipSpaces(s, 0) == p;
    assert p < BackSpaces(s, |s|);
  }

  /** What comes before the first separator is the first piece. */
  lemma {:induction false} FirstPiece(s: string, sep: char, p: nat)
    requires p < |s| && forall k :: 0 <= k <= p ==> s[k] != sep
    ensures var first := Split(s, sep)[0]; p < |first| && forall k :: 0 <= k <= p ==> first[k] == s[k]
  {
    if 0 < p {
      FirstPiece(s[1..], sep, p - 1);
    }
  }

  lemma {:induction false} ColumnsHaveNoFence(lines: seq<string>, k: nat)
    requires ParseColumns(lines).Some? && k < |lines|
    ensures !IsFenceLine(lines[k])
  {
    hide ParseColumn, Trim, IsFenceLine;
    var n := |lines| - 1;
    if k < n {
      ColumnsHaveNoFence(lines[..n], k);
    } else if IsFenceLine(lines[n]) {
      ColumnIsNoFence(lines[n]);
    }
  }

  lemma CloseLineIsNoFence(line: string)
    requires IsFenceLine(line)
    ensures !IsCloseLine(line)
  {
    hide ComparativaFrom, Trim, BackSpaces;
    var p := SkipSpaces(line, 0);
    assert line[p] == line[p..p + 3][0];
    assert line[p] == '`' || line[p] == '~';
    FrontOfTrim(line, p);
    var t := Trim(line);
    assert 2 <= |t| ==> t[..2][0] == t[0] != '[';
    hide IsFenceLine;
  }

  lemma CloseIsClosing(lines: seq<string>)
    ensures FindClose(lines) < |lines| ==> IsCloseLine(lines[FindClose(lines)])
  {
    hide IsCloseLine;
  }

  lemma ComparisonHasNoFence(lines: seq<string>, k: nat)
    requires lines != [] && ComparisonAt(lines).Some? && 1 <= k <= ComparisonAt(lines).value.1
    ensures !IsFenceLine(lines[k])
  {
    hide IsFenceLine, IsOpenLine, FindClose, ParseColumns, IsCloseLine;
    var close := ComparisonAt(lines).value.1;
    CloseIsClosing(lines[1..]);
    assert lines[1..][close - 1] == lines[close];
    if k < close {
      var body := lines[1..close];
      assert body[k - 1] == lines[k] && ParseColumns(body).Some?;
      hide ComparisonAt;
      ColumnsHaveNoFence(body, k - 1);
    } else if IsFenceLine(lines[close]) {
      CloseLineIsNoFence(lines[close]);
    }
  }

  /** None of the lines that a block takes is a fence line. */
  lemma BlockHasNoFence(lines: seq<string>, k: nat)
    requires lines != [] && BlockAt(lines).Some? && k < BlockAt(lines).value.1
    ensures !IsFenceLine(lines[k])
  {
    hide IsFenceLine, BlockOfLine, ComparisonAt;
    MadeOutsideFence(lines);
    if 0 < k {
      ComparisonHasNoFence(lines, k);
    }
  }

  lemma {:induction false} NoFenceNoChange(lines: seq<string>, inFence: bool)
    requires forall k :: 0 <= k < |lines| ==> !IsFenceLine(lines[k])
    ensures FenceAfter(lines, inFence) == inFence
  {
    hide IsFenceLine;
    if lines != [] {
      NoFenceNoChange(lines[..|lines| - 1], inFence);
    }
  }

  lemma MadeChangesNoFence(lines: seq<string>, inFence: bool)
    requires lines != [] && BlockAt(lines).Some?
    ensures FenceAfter(lines[..BlockAt(lines).value.1], inFence) == inFence
  {
    hide IsFenceLine, BlockAt, FenceAfter;
    var own := lines[..BlockAt(lines).value.1];
    forall k | 0 <= k < |own| ensures !IsFenceLine(own[k]) {
      BlockHasNoFence(lines, k);
    }
    NoFenceNoChange(own, inFence);
  }

  /**
   * For any input: the segments hold every line once and in order, blocks begin outside
   * fences, and between two blocks all the text is one run.
   */
  lemma {:induction false} SegmentsCover(lines: seq<string>, inFence: bool, buffer: seq<string>, before: bool)
    requires inFence == FenceAfter(buffer, before)
    ensures var s := Segments(lines, inFence, buffer);
            LinesOf(s) == buffer + lines && OutsideFences(s, before) && Alternates(s)
    decreases |lines|
  {
    hide IsFenceLine, BlockAt, OutsideFences, Alternates, LinesOf, FenceAfter;
    if lines == [] {
      CoverLast(buffer, before);
      assert buffer + lines == buffer;
    } else {
      SegmentsStep(lines, inFence, buffer);
      hide Segments;
      var fenced := inFence != IsFenceLine(lines[0]);
      var made := if fenced then None else BlockAt(lines);
      if made.Some? {
        MadeOutsideFence(lines);
        var (block, n) := made.value;
        MadeChangesNoFence(lines, fenced);
        NothingRead(fenced);
        SegmentsCover(lines[n..], fenced, [], fenced);
        CoverMade(Run(buffer), Made(lines[..n], block), Segments(lines[n..], fenced, []), before);
        assert [] + lines[n..] == lines[n..];
        assert buffer + (lines[..n] + lines[n..]) == buffer + lines;
      } else {
        OneMoreRead(buffer, lines[0], before);
        SegmentsCover(lines[1..], fenced, buffer + [lines[0]], before);
        assert buffer + [lines[0]] + lines[1..] == buffer + lines;
      }
    }
  }

  lemma CoverLast(buffer: seq<string>, before: bool)
    ensures LinesOf([Run(buffer)]) == buffer && OutsideFences([Run(buffer)], before) && Alternates([Run(buffer)])
  {
    hide FenceAfter;
    assert [Run(buffer)][1..] == [] && buffer + [] == buffer;
  }

  lemma NothingRead(inFence: bool)
    ensures FenceAfter([], inFence) == inFence
  {
  }

  lemma OneMoreRead(buffer: seq<string>, line: string, before: bool)
    ensures FenceAfter(buffer + [line], before) == (FenceAfter(buffer, before) != IsFenceLine(line))
  {
    hide IsFenceLine;
    assert (buffer + [line])[..|buffer|] == buffer;
  }

  lemma CoverMade(a: Segment, b: Segment, rest: seq<Segment>, before: bool)
    requires a.Run? && b.Made? && !FenceAfter(a.lines, before) && !FenceAfter(b.lines, false)
    requires OutsideFences(rest, false) && Alternates(rest)
    ensures var s := [a, b] + rest;
            LinesOf(s) == a.lines + (b.lines + LinesOf(rest)) && OutsideFences(s, before) && Alternates(s)
  {
    hide FenceAfter;
    var s := [a, b] + rest;
    assert s[1..] == [b] + rest && s[1..][1..] == rest && s[1..][0] == b;
    forall k | 0 <= k < |s| ensures s[k].Run? <==> k % 2 == 0 {
      if 2 <= k {
        assert s[k] == rest[k - 2];
      }
    }
  }

  /** The same, for a whole post. */
  lemma PostIsCovered(markdown: string)
    ensures var s := Segments(Split(markdown, '\n'), false, []);
            && SplitContent(markdown) == BlocksOf(s)
            && Join(LinesOf(s), "\n") == markdown && OutsideFences(s, false) && Alternates(s)
  {
    hide BlocksOf, OutsideFences, Alternates, LinesOf, Segments;
    var lines := Split(markdown, '\n');
    SegmentsCover(lines, false, [], false);
    assert [] + lines == lines;
    JoinSplit(markdown, '\n');
  }

  lemma {:induction false} FenceOfBoth(a: seq<string>, b: seq<string>, inFence: bool)
    ensures FenceAfter(a + b, inFence) == FenceAfter(b, FenceAfter(a, inFence))
    decreases |b|
  {
    hide IsFenceLine;
    if b == [] {
      assert a + b == a;
    } else {
      var n := |b| - 1;
      assert (a + b)[..|a| + n] == a + b[..n];
      FenceOfBoth(a, b[..n], inFence);
    }
  }

  /** Counted over the raw lines, the fence lines before any block are even in number. */
  lemma {:induction false} RawFencesBefore(segments: seq<Segment>, inFence: bool, k: nat)
    requires OutsideFences(segments, inFence) && k < |segments| && segments[k].Made?
    ensures !FenceAfter(LinesOf(segments[..k]), inFence)
    decreases k
  {
    hide FenceAfter;
    if k == 0 {
      NothingRead(inFence);
    } else {
      var first, rest := segments[0].lines, segments[1..];
      RawFencesBefore(rest, FenceAfter(first, inFence), k - 1);
      assert segments[..k][1..] == rest[..k - 1];
      FenceOfBoth(first, LinesOf(rest[..k - 1]), inFence);
    }
  }

  /** In any post, every block begins after an even number of fence lines, counted over all lines before it. */
  lemma BlocksOutsideFences(markdown: string, k: nat)
    requires var s := Segments(Split(markdown, '\n'), false, []); k < |s| && s[k].Made?
    ensures !FenceAfter(LinesOf(Segments(Split(markdown, '\n'), false, [])[..k]), false)
  {
    hide Segments, BlocksOf, OutsideFences, Alternates, LinesOf, FenceAfter, Split;
    PostIsCovered(markdown);
    RawFencesBefore(Segments(Split(markdown, '\n'), false, []), false, k);
  }

  // ---- what comes out --------------------------------------------------

  predicate IsSoundColumn(c: Column) {
    && 1 <= |c.title| <= 120
    && (c.imageUrl.Some? ==> StartsLike(c.imageUrl.value, "https://") && |c.imageUrl.value| <= 500)
    && (c.subtitle.Some? ==> 1 <= |c.subtitle.value| <= 200)
  }

  /** A block that a page can show as it is. */
  ghost predicate IsSound(b: Block) {
    match b
    case Markdown(text) => Trim(text) != ""
    case Button(caption, href) => 1 <= |caption| <= 80 && IsAddress(href)
    case Widget(widget) => widget in WIDGETS
    case Comparison(columns) =>
      MIN_COLUMNS <= |columns| <= MAX_COLUMNS && forall k :: 0 <= k < |columns| ==> IsSoundColumn(columns[k])
  }

  lemma ColumnIsSound(line: string)
    requires ParseColumn(line).Some?
    ensures IsSoundColumn(ParseColumn(line).value)
  {
    hide Trim, Split;
    var image := TrimAll(Split(line, '|'))[0];
    assert image != "" ==> StartsLike(Take(image, 500), "https://");
  }

  lemma {:induction false} ColumnsAreSound(lines: seq<string>)
    requires ParseColumns(lines).Some?
    ensures forall k :: 0 <= k < |ParseColumns(lines).value| ==> IsSoundColumn(ParseColumns(lines).value[k])
  {
    hide ParseColumn, Trim, IsSoundColumn;
    if lines != [] {
      ColumnsAreSound(lines[..|lines| - 1]);
      var last := lines[|lines| - 1];
      if Trim(last) != "" {
        ColumnIsSound(last);
      }
    }
  }

  lemma LineBlockIsSound(line: string)
    requires BlockOfLine(line).Some?
    ensures IsSound(BlockOfLine(line).value)
  {
    hide Trim, Split, MatchBlock, IsHref, IsAddress, WidgetName;
    var name := MatchBlock(Trim(line)).value.0;
    if BlockOfLine(line).value.Widget? {
      WidgetIsKnown(name);
    } else {
      AddressExactly(BlockOfLine(line).value.href);
    }
  }

  lemma WidgetIsKnown(name: string)
    requires WidgetName(name).Some?
    ensures WidgetName(name).value in WIDGETS
  {
  }

  lemma BlockIsSound(lines: seq<string>)
    requires lines != [] && BlockAt(lines).Some?
    ensures IsSound(BlockAt(lines).value.0)
  {
    hide IsOpenLine, BlockOfLine, ParseColumns, FindClose, IsSoundColumn, Trim;
    var close := 1 + FindClose(lines[1..]);
    if IsOpenLine(lines[0]) && close < |lines| && ComparisonOf(lines[1..close]).Some? {
      ColumnsAreSound(lines[1..close]);
    } else {
      LineBlockIsSound(lines[0]);
    }
  }

  ghost predicate AreSound(blocks: seq<Block>) {
    forall k :: 0 <= k < |blocks| ==> IsSound(blocks[k])
  }

  lemma TextIsSound(lines: seq<string>)
    ensures AreSound(TextBlock(lines))
  {
    hide Trim, Join;
  }

  lemma {:induction false} ScanIsSound(lines: seq<string>, inFence: bool, buffer: seq<string>)
    ensures AreSound(BlocksOf(Segments(lines, inFence, buffer)))
    decreases |lines|
  {
    hide IsFenceLine, BlockAt, BlocksOf, TextBlock, IsSound;
    TextIsSound(buffer);
    if lines == [] {
      LastRun(buffer);
    } else {
      var fenced := inFence != IsFenceLine(lines[0]);
      var made := if fenced then None else BlockAt(lines);
      if made.Some? {
        var (block, n) := made.value;
        BlockIsSound(lines);
        ScanIsSound(lines[n..], fenced, []);
        TwoSegments(Run(buffer), Made(lines[..n], block), Segments(lines[n..], fenced, []));
      } else {
        ScanIsSound(lines[1..], fenced, buffer + [lines[0]]);
      }
    }
  }

  /** Whatever the text, every block that comes out of it can be shown. */
  lemma SplitIsSound(markdown: string)
    ensures AreSound(SplitContent(markdown))
  {
    hide AreSound;
    ScanIsSound(Split(markdown, '\n'), false, []);
  }
}
