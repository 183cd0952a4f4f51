/**
 * What a line of a post stands for, said on its characters: fence lines, the lines around a
 * comparison, buttons, widgets and columns, with the letter case, the accents and the white space
 * that the scanner admits.
 */
module BlogLines {
  import opened Text
  import opened BlogContent

  // ---- fences ----------------------------------------------------------

  /** White space, then three backquotes or three tildes, then anything. */
  ghost predicate IsFence(line: string) {
    exists a, mark, rest :: AllSpace(a) && (mark == "```" || mark == "~~~") && line == a + mark + rest
  }

  lemma FenceExactly(line: string)
    ensures IsFenceLine(line) <==> IsFence(line)
  {
    if IsFenceLine(line) {
      var p := SkipSpaces(line, 0);
      var a, mark, rest := line[..p], line[p..p + 3], line[p + 3..];
      assert AllSpace(a);
      hide AllSpace, SkipSpaces, IsFenceLine;
      assert line == a + mark + rest;
    }
    if IsFence(line) {
      var a, mark, rest :| AllSpace(a) && (mark == "```" || mark == "~~~") && line == a + mark + rest;
      assert line[|a|..|a| + 3] == mark && line[0..|a|] == a;
      assert line[|a|] == mark[0];
      hide AllSpace, IsFence;
      SkipSpacesIs(line, 0, |a|);
    }
  }

  // ---- the lines around a comparison -----------------------------------

  lemma AnyCaseExactly(s: string, small: string)
    requires forall k :: 0 <= k < |small| ==> !('A' <= small[k] <= 'Z')
    ensures IsAnyCase(s, small) <==> |s| == |small| && StartsLike(s, small)
    ensures IsAnyCase(s, small) <==> LowerName(s) == small
  {
    assert |s| == |small| && StartsLike(s, small) ==> LowerName(s) == small;
    assert LowerName(s) == small ==> forall k :: 0 <= k < |s| ==> LowerAscii(s[k]) == LowerName(s)[k];
  }

  ghost predicate EndsInComparativa(rest: string) {
    exists b, word, c ::
      AllSpace(b) && AllSpace(c) && IsAnyCase(word, "comparativa") && rest == b + word + c + "]]"
  }

  lemma ComparativaExactly(t: string, p: nat)
    requires p <= |t|
    ensures ComparativaFrom(t, p) <==> EndsInComparativa(t[p..])
  {
    hide AllSpace, StartsLike, IsAnyCase, SkipSpaces;
    assert forall k :: 0 <= k < |COMPARATIVA| ==> 'a' <= COMPARATIVA[k] <= 'z';
    if ComparativaFrom(t, p) {
      ComparativaPut(t, p);
    }
    if EndsInComparativa(t[p..]) {
      var b, word, c :|
        AllSpace(b) && AllSpace(c) && IsAnyCase(word, "comparativa") && t[p..] == b + word + c + "]]";
      AnyCaseExactly(word, COMPARATIVA);
      hide ComparativaFrom;
      ComparativaIsRead(t, p, b, word, c);
    }
  }

  lemma ComparativaPut(t: string, p: nat)
    requires p <= |t| && ComparativaFrom(t, p)
    requires forall k :: 0 <= k < |COMPARATIVA| ==> !('A' <= COMPARATIVA[k] <= 'Z')
    ensures EndsInComparativa(t[p..])
  {
    var q := SkipSpaces(t, p);
    var e := q + |COMPARATIVA|;
    var f := SkipSpaces(t, e);
    assert AllSpace(t[p..q]) && AllSpace(t[e..f]);
    assert e <= |t| && StartsLike(t[q..e], COMPARATIVA) && t[f..] == "]]";
    hide AllSpace, StartsLike, IsAnyCase, SkipSpaces, ComparativaFrom;
    AnyCaseExactly(t[q..e], COMPARATIVA);
    FourPieces(t, p, q, e, f);
  }

  lemma FourPieces(t: string, p: nat, q: nat, e: nat, f: nat)
    requires p <= q <= e <= f <= |t| && t[f..] == "]]"
    ensures t[p..] == t[p..q] + t[q..e] + t[e..f] + "]]"
  {
    var shut := t[f..];
    assert t[p..] == t[p..q] + t[q..e] + t[e..f] + shut;
  }

  lemma ComparativaIsRead(t: string, p: nat, b: string, word: string, c: string)
    requires p <= |t| && AllSpace(b) && AllSpace(c)
    requires |word| == |COMPARATIVA| && StartsLike(word, COMPARATIVA) && t[p..] == b + word + c + "]]"
    ensures ComparativaFrom(t, p)
  {
    hide AllSpace, StartsLike, ComparativaFrom;
    var whole := b + word + c + "]]";
    Within(t, p, whole, 0, |b|, b);
    Within(t, p, whole, |b|, |b| + |word|, word);
    Within(t, p, whole, |b| + |word|, |b| + |word| + |c|, c);
    Within(t, p, whole, |b| + |word| + |c|, |whole|, "]]");
    ComparativaScan(t, p, p + |b|, p + |b| + |word| + |c|);
  }

  lemma ComparativaScan(t: string, p: nat, q: nat, f: nat)
    requires p <= q <= q + |COMPARATIVA| <= f <= |t|
    requires AllSpace(t[p..q]) && StartsLike(t[q..q + |COMPARATIVA|], COMPARATIVA)
    requires AllSpace(t[q + |COMPARATIVA|..f]) && t[f..|t|] == "]]"
    ensures ComparativaFrom(t, p)
  {
    var e := q + |COMPARATIVA|;
    assert LowerAscii(t[q..e][0]) == COMPARATIVA[0] == 'c';
    assert t[f..|t|] == t[f..] && t[f] == t[f..][0] == ']';
    hide AllSpace, StartsLike;
    LetterIsNoSpace(t[q]);
    SkipSpacesIs(t, p, q);
    SkipSpacesIs(t, e, f);
  }

  lemma LetterIsNoSpace(c: char)
    requires LowerAscii(c) == 'c'
    ensures !IsSpace(c)
  {
  }

  /** A piece of the end of `t` that is `whole` is where it stands in `whole`. */
  lemma Within(t: string, p: nat, whole: string, i: nat, j: nat, piece: string)
    requires p <= |t| && t[p..] == whole && i <= j <= |whole| && whole[i..j] == piece
    ensures |t| == p + |whole| && t[p + i..p + j] == piece
  {
    assert t[p + i..p + j] == t[p..][i..j];
  }

  /** `[[`, the word in any letter case with white space around it, and `]]`. */
  ghost predicate IsOpening(t: string) {
    exists b, word, c ::
      && AllSpace(b) && AllSpace(c) && IsAnyCase(word, "comparativa")
      && t == "[[" + (b + word + c + "]]")
  }

  lemma OpeningExactly(line: string)
    ensures IsOpenLine(line) <==> IsOpening(Trim(line))
  {
    hide Trim, AllSpace, IsAnyCase, ComparativaFrom;
    var t := Trim(line);
    if |t| >= 2 {
      ComparativaExactly(t, 2);
    }
    if IsOpenLine(line) {
      var b, word, c :|
        AllSpace(b) && AllSpace(c) && IsAnyCase(word, "comparativa") && t[2..] == b + word + c + "]]";
      assert t == t[..2] + t[2..];
    }
    if IsOpening(t) {
      var b, word, c :|
        && AllSpace(b) && AllSpace(c) && IsAnyCase(word, "comparativa")
        && t == "[[" + (b + word + c + "]]");
      assert t[..2] == "[[" && t[2..] == b + word + c + "]]";
    }
  }

  /** The same with a `/` before the word, white space before and after it. */
  ghost predicate IsClosing(t: string) {
    exists a, b, word, c ::
      && AllSpace(a) && AllSpace(b) && AllSpace(c) && IsAnyCase(word, "comparativa")
      && t == "[[" + a + "/" + (b + word + c + "]]")
  }

  lemma ClosingExactly(line: string)
    ensures IsCloseLine(line) <==> IsClosing(Trim(line))
  {
    hide Trim, AllSpace, IsAnyCase, ComparativaFrom, SkipSpaces;
    var t := Trim(line);
    if IsCloseLine(line) {
      var p := SkipSpaces(t, 2);
      ComparativaExactly(t, p + 1);
      hide IsCloseLine;
      ClosingHasForm(t);
    }
    if IsClosing(t) {
      var a, b, word, c :|
        && AllSpace(a) && AllSpace(b) && AllSpace(c) && IsAnyCase(word, "comparativa")
        && t == "[[" + a + "/" + (b + word + c + "]]");
      ClosingIsRead(t, a, b + word + c + "]]");
      ComparativaExactly(t, |a| + 3);
    }
  }

  lemma ClosingHasForm(t: string)
    requires 2 <= |t| && t[..2] == "[["
    requires var p := SkipSpaces(t, 2); p < |t| && t[p] == '/' && EndsInComparativa(t[p + 1..])
    ensures IsClosing(t)
  {
    var p := SkipSpaces(t, 2);
    var a := t[2..p];
    assert AllSpace(a);
    hide AllSpace, IsAnyCase, SkipSpaces;
    var b, word, c :|
      AllSpace(b) && AllSpace(c) && IsAnyCase(word, "comparativa") && t[p + 1..] == b + word + c + "]]";
    ClosingPut(t, p, t[p + 1..]);
  }

  lemma ClosingPut(t: string, p: nat, rest: string)
    requires 2 <= p < |t| && t[..2] == "[[" && t[p] == '/' && t[p + 1..] == rest
    ensures t == "[[" + t[2..p] + "/" + rest
  {
    var open, slash := t[..2], t[p..p + 1];
    assert slash == "/";
    assert t == open + t[2..p] + slash + rest;
  }

  lemma ClosingIsRead(t: string, a: string, rest: string)
    requires AllSpace(a) && t == "[[" + a + "/" + rest
    ensures |t| == |a| + 3 + |rest|
    ensures t[..2] == "[[" && SkipSpaces(t, 2) == |a| + 2 && t[|a| + 2] == '/' && t[|a| + 3..] == rest
  {
    assert t[2..|a| + 2] == a;
    SkipSpacesIs(t, 2, |a| + 2);
  }

  // ---- buttons and widgets ---------------------------------------------

  predicate IsName(word: string) {
    word != "" && forall k :: 0 <= k < |word| ==> IsNameChar(word[k])
  }

  /** `[[` name `]]` or `[[` name `:` anything `]]`, with white space before and after the name. */
  ghost predicate IsBlockForm(t: string, word: string, tail: string) {
    exists b, c ::
      && AllSpace(b) && AllSpace(c) && IsName(word) && (tail == "" || tail[0] == ':')
      && t == "[[" + (b + word + c + tail + "]]")
  }

  /** The argument: what follows the colon, without the white space around it. */
  function Argument(tail: string): string {
    if tail == "" then "" else Trim(tail[1..])
  }

  lemma NameEndIs(s: string, p: nat, q: nat)
    requires p <= q <= |s| && (forall k :: 0 <= k < q - p ==> IsNameChar(s[p..q][k]))
    requires q < |s| ==> !IsNameChar(s[q])
    ensures NameEnd(s, p) == q
  {
    forall k | p <= k < q ensures IsNameChar(s[k]) {
      assert s[k] == s[p..q][k - p];
    }
  }

  lemma SpacesAreNoNames(c: char)
    requires IsNameChar(c)
    ensures !IsSpace(c) && c != ':' && c != ']'
  {
  }

  lemma MarksAreNoSpaces()
    ensures !IsSpace(':') && !IsSpace(']') && !IsNameChar(':') && !IsNameChar(']')
  {
  }

  /** Where the pieces of a block line stand. */
  lemma BlockPieces(t: string, b: string, word: string, c: string, tail: string)
    requires t == "[[" + (b + word + c + tail + "]]")
    ensures var p := 2 + |b|;
            var e := p + |word|;
            var q := e + |c|;
            && |t| == q + |tail| + 2 && t[..2] == "[[" && t[2..p] == b && t[p..e] == word && t[e..q] == c
            && t[q..|t| - 2] == tail && t[|t| - 2..] == "]]"
  {
    var whole := b + word + c + tail + "]]";
    assert t[2..] == whole;
    Within(t, 2, whole, 0, |b|, b);
    Within(t, 2, whole, |b|, |b| + |word|, word);
    Within(t, 2, whole, |b| + |word|, |b| + |word| + |c|, c);
    Within(t, 2, whole, |b| + |word| + |c|, |whole| - 2, tail);
    Within(t, 2, whole, |whole| - 2, |whole|, "]]");
  }

  lemma FormIsRead(t: string, b: string, word: string, c: string, tail: string)
    requires AllSpace(b) && AllSpace(c) && IsName(word) && (tail == "" || tail[0] == ':')
    requires t == "[[" + (b + word + c + tail + "]]")
    ensures MatchBlock(t)
            == if HasLineEnd(Argument(tail)) then None else Some((LowerName(word), Argument(tail)))
  {
    hide MatchBlock, Argument, LowerName, HasLineEnd, SkipSpaces, NameEnd;
    assert word != "";
    hide AllSpace, IsName;
    BlockPieces(t, b, word, c, tail);
    var p := 2 + |b|;
    var e := p + |word|;
    var q := e + |c|;
    FormScan(t, p, e, q, tail);
    FormGives(t, p, e, q, tail);
  }

  lemma FormScan(t: string, p: nat, e: nat, q: nat, tail: string)
    requires 2 <= p <= e <= q && |t| == q + |tail| + 2 && (tail == "" || tail[0] == ':')
    requires AllSpace(t[2..p]) && IsName(t[p..e]) && AllSpace(t[e..q])
    requires t[q..|t| - 2] == tail && t[|t| - 2..] == "]]"
    ensures SkipSpaces(t, 2) == p && NameEnd(t, p) == e && SkipSpaces(t, e) == q
  {
    hide IsSpace, IsNameChar;
    MarksAreNoSpaces();
    assert t[p] == t[p..e][0];
    SpacesAreNoNames(t[p]);
    SkipSpacesIs(t, 2, p);
    AfterName(t, e, q, tail);
    NameEndIs(t, p, e);
    SkipSpacesIs(t, e, q);
  }

  lemma FormGives(t: string, p: nat, e: nat, q: nat, tail: string)
    requires 2 <= p < e <= q && |t| == q + |tail| + 2 && (tail == "" || tail[0] == ':') && t[..2] == "[["
    requires t[q..|t| - 2] == tail && t[|t| - 2..] == "]]"
    requires SkipSpaces(t, 2) == p && NameEnd(t, p) == e && SkipSpaces(t, e) == q
    ensures MatchBlock(t)
            == if HasLineEnd(Argument(tail)) then None else Some((LowerName(t[p..e]), Argument(tail)))
  {
    hide SkipSpaces, NameEnd, Trim, LowerName, HasLineEnd;
    NothingHasNoEnd();
    if tail == "" {
      assert t[q..] == "]]" && t[q] == t[q..][0];
    } else {
      assert t[q] == tail[0] && t[q + 1..|t| - 2] == tail[1..];
    }
  }

  lemma AfterName(t: string, e: nat, q: nat, tail: string)
    requires e <= q && |t| == q + |tail| + 2 && AllSpace(t[e..q]) && (tail == "" || tail[0] == ':')
    requires t[q..|t| - 2] == tail && t[|t| - 2..] == "]]"
    ensures t[q] == (if tail == "" then ']' else ':') && !IsNameChar(t[e]) && !IsSpace(t[q])
  {
    if tail == "" {
      assert t[q] == t[|t| - 2..][0];
    } else {
      assert t[q] == tail[0];
    }
    assert e < q ==> t[e] == t[e..q][0];
  }

  lemma MatchScan(t: string, p: nat, e: nat, q: nat)
    requires MatchBlock(t).Some? && p == SkipSpaces(t, 2)
    requires p <= |t| && e == NameEnd(t, p) && q == SkipSpaces(t, e)
    ensures q + 2 <= |t| && t[..2] == "[[" && t[|t| - 2..] == "]]" && p < e
    ensures q + 2 < |t| ==> t[q] == ':'
    ensures var tail := t[q..|t| - 2];
            MatchBlock(t) == Some((LowerName(t[p..e]), Argument(tail))) && !HasLineEnd(Argument(tail))
  {
    hide SkipSpaces, NameEnd, Trim, LowerName, HasLineEnd;
    NothingHasNoEnd();
    if t[q..] != "]]" {
      assert t[q..|t| - 2][1..] == t[q + 1..|t| - 2];
    } else {
      assert t[q] == t[q..][0];
    }
  }

  lemma MatchHasForm(t: string) returns (word: string, tail: string)
    requires MatchBlock(t).Some?
    ensures IsBlockForm(t, word, tail) && !HasLineEnd(Argument(tail))
    ensures MatchBlock(t) == Some((LowerName(word), Argument(tail)))
  {
    var p := SkipSpaces(t, 2);
    var e := NameEnd(t, p);
    var q := SkipSpaces(t, e);
    MatchScan(t, p, e, q);
    hide MatchBlock, LowerName, Argument, HasLineEnd;
    word, tail := t[p..e], t[q..|t| - 2];
    FormPut(t, p, e, q);
  }

  lemma FormPut(t: string, p: nat, e: nat, q: nat)
    requires 2 <= p < e <= q && q + 2 <= |t| && t[..2] == "[[" && t[|t| - 2..] == "]]"
    requires p == SkipSpaces(t, 2) && e == NameEnd(t, p) && q == SkipSpaces(t, e)
    requires q + 2 < |t| ==> t[q] == ':'
    ensures IsBlockForm(t, t[p..e], t[q..|t| - 2])
  {
    var b, c := t[2..p], t[e..q];
    assert AllSpace(b) && AllSpace(c) && IsName(t[p..e]);
    hide SkipSpaces, NameEnd, AllSpace, IsName;
    BlockPut(t, p, e, q);
  }

  lemma BlockPut(t: string, p: nat, e: nat, q: nat)
    requires 2 <= p <= e <= q && q + 2 <= |t| && t[..2] == "[[" && t[|t| - 2..] == "]]"
    ensures t == "[[" + (t[2..p] + t[p..e] + t[e..q] + t[q..|t| - 2] + "]]")
  {
    var open, shut := t[..2], t[|t| - 2..];
    assert t == open + (t[2..p] + t[p..e] + t[e..q] + t[q..|t| - 2] + shut);
  }

  lemma FormDetermines(t: string, word: string, tail: string)
    requires IsBlockForm(t, word, tail) && !HasLineEnd(Argument(tail))
    ensures MatchBlock(t) == Some((LowerName(word), Argument(tail)))
  {
    hide MatchBlock, LowerName, Argument, HasLineEnd, AllSpace, IsName;
    var b, c :|
      && AllSpace(b) && AllSpace(c) && IsName(word) && (tail == "" || tail[0] == ':')
      && t == "[[" + (b + word + c + tail + "]]");
    FormIsRead(t, b, word, c, tail);
  }

  predicate IsBoton(word: string) {
    IsAnyCase(word, "boton") || IsAnyCase(word, "bot\U{F3}n")
  }

  /** A text of up to 80 characters, a bar and an address; a second bar and what follows it are ignored. */
  ghost predicate IsButtonText(arg: string, caption: string, href: string) {
    IsAddress(href)
    && exists first, second, more ::
         && IsCut(arg, first, second, more) && Trim(first) != "" && Trim(second) == href
         && caption == if |Trim(first)| <= 80 then Trim(first) else Trim(first)[..80]
  }

  /** The text before the first bar, what follows it up to a second one, if any, and the rest from there. */
  predicate IsCut(arg: string, first: string, second: string, more: string) {
    arg == first + "|" + (second + more) && '|' !in first && '|' !in second && (more == "" || more[0] == '|')
  }

  ghost predicate IsButtonLine(line: string, caption: string, href: string) {
    exists word, tail ::
      && IsBlockForm(Trim(line), word, tail) && IsBoton(word)
      && !HasLineEnd(Argument(tail)) && IsButtonText(Argument(tail), caption, href)
  }

  /** The first two pieces of a text cut at bars. */
  lemma CutAtBars(arg: string, first: string, second: string, more: string)
    requires IsCut(arg, first, second, more)
    ensures var p := Split(arg, '|'); |p| >= 2 && p[0] == first && p[1] == second
  {
    assert arg == first + ['|'] + (second + more);
    SplitFirst(first, second + more, '|');
    if more == "" {
      assert second + more == second;
      SplitPiece(second, '|');
    } else {
      assert second + more == second + ['|'] + more[1..];
      SplitFirst(second, more[1..], '|');
    }
  }

  lemma BarsCut(arg: string) returns (first: string, second: string, more: string)
    requires |Split(arg, '|')| >= 2
    ensures IsCut(arg, first, second, more)
    ensures first == Split(arg, '|')[0] && second == Split(arg, '|')[1]
  {
    var p := Split(arg, '|');
    hide Split;
    JoinSplit(arg, '|');
    first, second := p[0], p[1];
    more := if |p| == 2 then "" else "|" + Join(p[1..][1..], "|");
    assert p[0] in p && p[1] in p && p[1..][0] == p[1];
    assert Join(p[1..], "|") == second + more;
  }

  /** What a button line gives, once name and argument are read. */
  lemma ButtonOfLine(line: string, caption: string, href: string)
    ensures BlockOfLine(line) == Some(Button(caption, href))
            <==> var m := MatchBlock(Trim(line));
                 && m.Some? && (m.value.0 == "boton" || m.value.0 == "bot\U{F3}n")
                 && IsButtonText(m.value.1, caption, href)
  {
    hide MatchBlock, Trim, IsHref, IsAddress, IsCut, Split;
    AddressExactly(href);
    var m := MatchBlock(Trim(line));
    if m.Some? && IsButtonText(m.value.1, caption, href) {
      var first, second, more :|
        && IsCut(m.value.1, first, second, more) && Trim(first) != "" && Trim(second) == href
        && caption == if |Trim(first)| <= 80 then Trim(first) else Trim(first)[..80];
      CutAtBars(m.value.1, first, second, more);
      NoAddressIsEmpty(href);
    }
    if BlockOfLine(line) == Some(Button(caption, href)) {
      var first, second, more := BarsCut(m.value.1);
    }
  }

  lemma NoAddressIsEmpty(href: string)
    requires IsAddress(href)
    ensures href != ""
  {
  }

  /** A line is a button with that text and address if and only if it is written as one. */
  lemma ButtonExactly(line: string, caption: string, href: string)
    ensures BlockOfLine(line) == Some(Button(caption, href)) <==> IsButtonLine(line, caption, href)
  {
    hide MatchBlock, BlockOfLine, Trim, IsButtonText, IsBlockForm, Argument, HasLineEnd, LowerName, IsAnyCase;
    var t := Trim(line);
    ButtonOfLine(line, caption, href);
    if BlockOfLine(line) == Some(Button(caption, href)) {
      var word, tail := MatchHasForm(t);
      BotonExactly(word);
    }
    if IsButtonLine(line, caption, href) {
      var word, tail :|
        && IsBlockForm(t, word, tail) && IsBoton(word)
        && !HasLineEnd(Argument(tail)) && IsButtonText(Argument(tail), caption, href);
      FormDetermines(t, word, tail);
      BotonExactly(word);
    }
  }

  lemma BotonExactly(word: string)
    ensures IsBoton(word) <==> LowerName(word) == "boton" || LowerName(word) == "bot\U{F3}n"
  {
    hide IsAnyCase, LowerName;
    AnyCaseExactly(word, "boton");
    AnyCaseExactly(word, "bot\U{F3}n");
  }

  /** The letter `small`, or its capital, or the small letter with an accent or a tilde. */
  predicate IsLetter(c: char, small: char) {
    || c == small || ('a' <= small <= 'z' && c as int + 32 == small as int)
    || (small == 'a' && c == '\U{E1}') || (small == 'e' && c == '\U{E9}') || (small == 'i' && c == '\U{ED}')
    || (small == 'o' && c == '\U{F3}') || (small == 'u' && c == '\U{FA}') || (small == 'n' && c == '\U{F1}')
  }

  predicate IsWidgetWord(word: string, w: string) {
    && (w == "calculadora" || w == "tamanos" || w == "locales")
    && |word| == |w| && forall k :: 0 <= k < |word| ==> IsLetter(word[k], w[k])
  }

  ghost predicate IsWidgetLine(line: string, w: string) {
    exists word, tail ::
      && IsBlockForm(Trim(line), word, tail) && IsWidgetWord(word, w)
      && Argument(tail) == ""
  }

  lemma LetterExactly(c: char, small: char)
    requires 'a' <= small <= 'z'
    ensures Plain(LowerAscii(c)) == small <==> IsLetter(c, small)
  {
  }

  lemma WidgetWordExactly(word: string, w: string)
    ensures WidgetName(LowerName(word)) == Some(w) <==> IsWidgetWord(word, w)
    ensures IsWidgetWord(word, w) ==> LowerName(word) != "boton" && LowerName(word) != "bot\U{F3}n"
  {
    hide IsLetter, Plain, LowerAscii;
    if w in WIDGETS {
      assert forall k :: 0 <= k < |w| ==> 'a' <= w[k] <= 'z';
      forall k | 0 <= k < |w| && k < |word|
        ensures Plain(LowerName(word)[k]) == w[k] <==> IsLetter(word[k], w[k])
      {
        LetterExactly(word[k], w[k]);
      }
      assert |w| != 5;
      var name := LowerName(word);
      var n := seq(|name|, k requires 0 <= k < |name| => Plain(name[k]));
      assert IsWidgetWord(word, w) ==> n == w;
      if n == w {
        assert forall k :: 0 <= k < |w| ==> Plain(name[k]) == n[k] == w[k];
      }
    }
  }

  /** A line is a widget if and only if its name is one, in any case and with or without accents, and no argument. */
  lemma WidgetExactly(line: string, w: string)
    ensures BlockOfLine(line) == Some(Widget(w)) <==> IsWidgetLine(line, w)
  {
    hide MatchBlock, Trim, IsBlockForm, Argument, HasLineEnd, LowerName, WidgetName, IsWidgetWord, Split, IsHref;
    var t := Trim(line);
    if BlockOfLine(line) == Some(Widget(w)) {
      var word, tail := MatchHasForm(t);
      WidgetWordExactly(word, w);
    }
    if IsWidgetLine(line, w) {
      var word, tail :| IsBlockForm(t, word, tail) && IsWidgetWord(word, w) && Argument(tail) == "";
      NothingHasNoEnd();
      FormDetermines(t, word, tail);
      WidgetWordExactly(word, w);
    }
  }

  lemma NothingHasNoEnd()
    ensures !HasLineEnd("")
  {
  }

  // ---- columns ---------------------------------------------------------

  predicate IsSecureAddress(s: string) {
    IsHttpAddress(s) && (s[4] == 's' || s[4] == 'S')
  }

  lemma SecureExactly(s: string)
    ensures StartsLike(s, "https://") <==> IsSecureAddress(s)
  {
    assert "https://"[..4] == "http";
    assert 7 <= |s| ==> s[4..7] == [s[4], s[5], s[6]];
    assert 8 <= |s| ==> s[5..8] == [s[5], s[6], s[7]];
  }

  /**
   * Texts between bars make a column exactly when the second is not blank and the first is blank or a
   * secure address; each is cut to its length, and a fourth text is ignored.
   */
  lemma ColumnExactly(texts: seq<string>, c: Column)
    requires texts != [] && forall p | p in texts :: '|' !in p
    ensures ParseColumn(Join(texts, "|")) == Some(c)
            <==> var image := Trim(texts[0]);
                 var title := if |texts| > 1 then Trim(texts[1]) else "";
                 var subtitle := if |texts| > 2 then Trim(texts[2]) else "";
                 && title != "" && (image == "" || IsSecureAddress(image))
                 && c.title == (if |title| > 120 then title[..120] else title)
                 && c.imageUrl == (if image == "" then None
                                   else if |image| > 500 then Some(image[..500]) else Some(image))
                 && c.subtitle == (if subtitle == "" then None
                                   else if |subtitle| > 200 then Some(subtitle[..200]) else Some(subtitle))
  {
    hide Trim, Split, Join, StartsLike, IsSecureAddress;
    SplitJoin(texts, '|');
    SecureExactly(Trim(texts[0]));
  }

  /** A blank line among those of a comparison does not matter. */
  lemma {:induction false} BlankLinesSkipped(before: seq<string>, blank: string, after: seq<string>)
    requires AllSpace(blank)
    ensures ParseColumns(before + [blank] + after) == ParseColumns(before + after)
    decreases |after|
  {
    hide ParseColumn, Trim;
    var all, fewer := before + [blank] + after, before + after;
    if after == [] {
      assert all[..|all| - 1] == before && fewer == before;
      BlankIsNothing(blank);
    } else {
      var n := |after| - 1;
      BlankLinesSkipped(before, blank, after[..n]);
      assert all[..|all| - 1] == before + [blank] + after[..n];
      assert fewer[..|fewer| - 1] == before + after[..n];
    }
  }

  lemma BlankIsNothing(blank: string)
    requires AllSpace(blank)
    ensures Trim(blank) == ""
  {
    assert blank + "" + "" == blank;
    TrimPadded(blank, "", "");
  }

  /** Lines that are not blank give a column each, in order, or nothing at all when one of them is not valid. */
  lemma {:induction false} ColumnsAreLines(lines: seq<string>)
    requires forall k :: 0 <= k < |lines| ==> Trim(lines[k]) != ""
    ensures ParseColumns(lines).Some? <==> forall k :: 0 <= k < |lines| ==> ParseColumn(lines[k]).Some?
    ensures ParseColumns(lines).Some? ==>
              && |ParseColumns(lines).value| == |lines|
              && forall k :: 0 <= k < |lines| ==> ParseColumn(lines[k]) == Some(ParseColumns(lines).value[k])
  {
    hide ParseColumn, Trim;
    if lines != [] {
      ColumnsAreLines(lines[..|lines| - 1]);
    }
  }

  /** A comparison is the columns of its lines when they are valid and from two to four. */
  lemma ComparisonExactly(lines: seq<string>, columns: seq<Column>)
    requires forall k :: 0 <= k < |lines| ==> Trim(lines[k]) != ""
    ensures ComparisonOf(lines) == Some(columns)
            <==> && 2 <= |lines| <= 4 && |columns| == |lines|
                 && forall k :: 0 <= k < |lines| ==> ParseColumn(lines[k]) == Some(columns[k])
  {
    hide ParseColumn, Trim, ParseColumns;
    ColumnsAreLines(lines);
    if |columns| == |lines| && forall k :: 0 <= k < |lines| ==> ParseColumn(lines[k]) == Some(columns[k]) {
      assert ParseColumns(lines).value == columns;
    }
  }
}
