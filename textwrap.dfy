/**
 * Greedy caption wrapping (`wrap_text` in utils/video_generator.py).
 *
 * Every word is charged `len(word) * 0.6 * font_size + 0.3 * font_size` pixels
 * (its glyphs and a trailing space); words are added to the current line while
 * the line's running charge stays within 80% of the maximal width, and a word
 * that does not fit starts a new line. A word that alone exceeds the budget still
 * gets a line of its own.
 */
module TextWrap {
  import opened Strings

  /** Estimated width of `word` and the space after it, in pixels. */
  function WordWidth(word: string, fontSize: int): real {
    (|word| as real) * (fontSize as real * 0.6) + fontSize as real * 0.3
  }

  /** The width budget of a line: 80% of the nominal maximal width. */
  function EffectiveWidth(maxWidth: int): real {
    maxWidth as real * 0.8
  }

  /** The running charge of a line: the sum of its words' widths. */
  function LineWidth(line: seq<string>, fontSize: int): real {
    if line == [] then 0.0 else LineWidth(line[..|line| - 1], fontSize) + WordWidth(line[|line| - 1], fontSize)
  }

  /** The state of the packing loop: finished lines, the line being filled and its charge. */
  datatype Packing = Packing(lines: seq<seq<string>>, current: seq<string>, width: real)

  /** One iteration of the loop: place `word` on the current line or open a new one. */
  function Place(p: Packing, word: string, limit: real, fontSize: int): Packing {
    var w := WordWidth(word, fontSize);
    if p.width + w <= limit then Packing(p.lines, p.current + [word], p.width + w)
    else Packing(if p.current != [] then p.lines + [p.current] else p.lines, [word], w)
  }

  /** The loop run over `words`, from an empty state. */
  function Pack(words: seq<string>, limit: real, fontSize: int): Packing {
    if words == [] then Packing([], [], 0.0)
    else Place(Pack(words[..|words| - 1], limit, fontSize), words[|words| - 1], limit, fontSize)
  }

  /** The lines of a finished packing: the finished lines, then the last one if it is not empty. */
  function Groups(p: Packing): seq<seq<string>> {
    if p.current != [] then p.lines + [p.current] else p.lines
  }

  /** ' '.join of every line. */
  function JoinEach(gs: seq<seq<string>>): (r: seq<string>)
    ensures |r| == |gs|
  {
    if gs == [] then [] else [JoinWords(gs[0])] + JoinEach(gs[1..])
  }

  /** The lines as word lists. */
  function WrapGroups(text: string, maxWidth: int, fontSize: int): seq<seq<string>> {
    Groups(Pack(Split(text), EffectiveWidth(maxWidth), fontSize))
  }

  /** What `wrap_text(text, max_width, font_size)` returns. */
  function Wrap(text: string, maxWidth: int, fontSize: int): seq<string> {
    JoinEach(WrapGroups(text, maxWidth, fontSize))
  }

  /** `wrap_text`, written as the source's loop. */
  method WrapText(text: string, maxWidth: int, fontSize: int) returns (lines: seq<string>)
    ensures lines == Wrap(text, maxWidth, fontSize)
  {
    var effectiveWidth := maxWidth as real * 0.8;
    var words := Split(text);
    lines := [];
    var currentLine: seq<string> := [];
    var currentLineWidth := 0.0;
    for i := 0 to |words|
      invariant currentLine == Pack(words[..i], effectiveWidth, fontSize).current
      invariant currentLineWidth == Pack(words[..i], effectiveWidth, fontSize).width
      invariant lines == JoinEach(Pack(words[..i], effectiveWidth, fontSize).lines)
    {
      ghost var before := Pack(words[..i], effectiveWidth, fontSize);
      var word := words[i];
      assert words[..i + 1][..i] == words[..i];
      assert Pack(words[..i + 1], effectiveWidth, fontSize) == Place(before, word, effectiveWidth, fontSize);
      var wordWidth := |word| as real * (fontSize as real * 0.6) + fontSize as real * 0.3;
      assert wordWidth == WordWidth(word, fontSize);
      if currentLineWidth + wordWidth <= effectiveWidth {
        currentLine := currentLine + [word];
        currentLineWidth := currentLineWidth + wordWidth;
      } else {
        if currentLine != [] {
          JoinEachAppend(before.lines, currentLine);
          lines := lines + [JoinWords(currentLine)];
        }
        currentLine := [word];
        currentLineWidth := wordWidth;
      }
    }
    assert words[..|words|] == words;
    if currentLine != [] {
      JoinEachAppend(Pack(words, effectiveWidth, fontSize).lines, currentLine);
      lines := lines + [JoinWords(currentLine)];
    }
  }

  lemma {:induction false} JoinEachAppend(gs: seq<seq<string>>, g: seq<string>)
    ensures JoinEach(gs + [g]) == JoinEach(gs) + [JoinWords(g)]
  {
    if gs == [] {
      assert [g][1..] == [];
    } else {
      assert (gs + [g])[1..] == gs[1..] + [g];
      JoinEachAppend(gs[1..], g);
    }
  }

  // ---------------------------------------------------------------------------------------------
  // What the packing guarantees

  /** Every prefix of `line` of two or more words stays within `limit`, i.e. each word after
      the first was admitted by the loop's test. */
  ghost predicate Fitted(line: seq<string>, limit: real, fontSize: int) {
    forall k :: 2 <= k <= |line| ==> LineWidth(line[..k], fontSize) <= limit
  }

  /** The line following line `k` of a packing. */
  function NextGroup(p: Packing, k: nat): seq<string>
    requires k < |p.lines|
  {
    if k + 1 < |p.lines| then p.lines[k + 1] else p.current
  }

  /** The loop invariant of the packing of `words`: no word lost or reordered, no empty line,
      every line fitted, the charge kept exactly, and a line closed only when the next word
      did not fit on it. */
  ghost predicate Packed(p: Packing, words: seq<string>, limit: real, fontSize: int) {
    && Flatten(p.lines) + p.current == words
    && (p.current == [] ==> words == [])
    && (forall k :: 0 <= k < |p.lines| ==> p.lines[k] != [] && Fitted(p.lines[k], limit, fontSize))
    && Fitted(p.current, limit, fontSize)
    && p.width == LineWidth(p.current, fontSize)
    && (forall k :: 0 <= k < |p.lines| ==>
          NextGroup(p, k) != [] &&
          LineWidth(p.lines[k], fontSize) + WordWidth(NextGroup(p, k)[0], fontSize) > limit)
  }

  lemma FittedExtend(line: seq<string>, word: string, limit: real, fontSize: int)
    requires Fitted(line, limit, fontSize)
    requires line == [] || LineWidth(line, fontSize) + WordWidth(word, fontSize) <= limit
    ensures Fitted(line + [word], limit, fontSize)
  {
    var l := line + [word];
    forall k | 2 <= k <= |l|
      ensures LineWidth(l[..k], fontSize) <= limit
    {
      if k <= |line| {
        assert l[..k] == line[..k];
      } else {
        assert l[..k] == l;
        assert l[..|l| - 1] == line;
      }
    }
  }

  lemma {:induction false} PackIsPacked(words: seq<string>, limit: real, fontSize: int)
    ensures Packed(Pack(words, limit, fontSize), words, limit, fontSize)
  {
    if words != [] {
      var init := words[..|words| - 1];
      var word := words[|words| - 1];
      assert words == init + [word];
      PackIsPacked(init, limit, fontSize);
      PlacePreservesPacked(Pack(init, limit, fontSize), init, word, limit, fontSize);
    }
  }

  /** One iteration of the loop keeps the invariant. */
  lemma PlacePreservesPacked(p: Packing, init: seq<string>, word: string, limit: real, fontSize: int)
    requires Packed(p, init, limit, fontSize)
    ensures Packed(Place(p, word, limit, fontSize), init + [word], limit, fontSize)
  {
    if p.width + WordWidth(word, fontSize) <= limit {
      PlaceOnLine(p, init, word, limit, fontSize);
    } else {
      PlaceOnNewLine(p, init, word, limit, fontSize);
    }
  }

  lemma PlaceOnLine(p: Packing, init: seq<string>, word: string, limit: real, fontSize: int)
    requires Packed(p, init, limit, fontSize)
    requires p.width + WordWidth(word, fontSize) <= limit
    ensures Packed(Place(p, word, limit, fontSize), init + [word], limit, fontSize)
  {
    var words := init + [word];
    var q := Place(p, word, limit, fontSize);
    assert q == Packing(p.lines, p.current + [word], p.width + WordWidth(word, fontSize));
    FittedExtend(p.current, word, limit, fontSize);
    assert Flatten(q.lines) + q.current == words;
    assert q.width == LineWidth(q.current, fontSize) by {
      assert q.current[..|q.current| - 1] == p.current;
    }
    forall k | 0 <= k < |q.lines|
      ensures NextGroup(q, k) != [] &&
        LineWidth(q.lines[k], fontSize) + WordWidth(NextGroup(q, k)[0], fontSize) > limit
    {
      if k + 1 == |q.lines| {
        assert NextGroup(p, k) == p.current;
        assert NextGroup(q, k)[0] == p.current[0];
      }
    }
  }

  lemma PlaceOnNewLine(p: Packing, init: seq<string>, word: string, limit: real, fontSize: int)
    requires Packed(p, init, limit, fontSize)
    requires p.width + WordWidth(word, fontSize) > limit
    ensures Packed(Place(p, word, limit, fontSize), init + [word], limit, fontSize)
  {
    var words := init + [word];
    var w := WordWidth(word, fontSize);
    var q := Place(p, word, limit, fontSize);
    assert q == Packing(if p.current != [] then p.lines + [p.current] else p.lines, [word], w);
    assert Fitted([word], limit, fontSize);
    assert LineWidth([word], fontSize) == w by {
      assert [word][..0] == [];
    }
    if p.current != [] {
      FlattenAppend(p.lines, p.current);
      assert Flatten(q.lines) + q.current == words;
      forall k | 0 <= k < |q.lines|
        ensures NextGroup(q, k) != [] &&
          LineWidth(q.lines[k], fontSize) + WordWidth(NextGroup(q, k)[0], fontSize) > limit
      {
        if k + 1 < |q.lines| {
          assert NextGroup(q, k) == NextGroup(p, k);
        }
      }
    } else {
      assert p.lines == [] && init == [];
      assert Flatten(q.lines) + q.current == words;
    }
  }

  /** A fitted, non-empty list of words packs onto a single line. */
  lemma {:induction false} PackFitted(words: seq<string>, limit: real, fontSize: int)
    requires words != [] && Fitted(words, limit, fontSize)
    ensures Pack(words, limit, fontSize) == Packing([], words, LineWidth(words, fontSize))
  {
    var n := |words| - 1;
    if n == 0 {
      assert words[..0] == [];
    } else {
      FittedPrefix(words, n, limit, fontSize);
      PackFitted(words[..n], limit, fontSize);
      FittedWhole(words, limit, fontSize);
    }
  }

  lemma FittedPrefix(line: seq<string>, n: nat, limit: real, fontSize: int)
    requires n <= |line| && Fitted(line, limit, fontSize)
    ensures Fitted(line[..n], limit, fontSize)
  {
    forall k | 2 <= k <= n
      ensures LineWidth(line[..n][..k], fontSize) <= limit
    {
      assert line[..n][..k] == line[..k];
    }
  }

  lemma FittedWhole(line: seq<string>, limit: real, fontSize: int)
    requires |line| >= 2 && Fitted(line, limit, fontSize)
    ensures LineWidth(line, fontSize) <= limit
  {
    assert line[..|line|] == line;
  }

  // ---------------------------------------------------------------------------------------------
  // Properties of wrap_text

  /** The groups of a whole packing satisfy the invariant line by line. */
  lemma GroupsPacked(words: seq<string>, limit: real, fontSize: int)
    ensures var gs := Groups(Pack(words, limit, fontSize));
      && Flatten(gs) == words
      && (forall k :: 0 <= k < |gs| ==> gs[k] != [] && Fitted(gs[k], limit, fontSize))
      && (forall k :: 0 < k < |gs| ==>
            LineWidth(gs[k - 1], fontSize) + WordWidth(gs[k][0], fontSize) > limit)
  {
    var p := Pack(words, limit, fontSize);
    PackIsPacked(words, limit, fontSize);
    var gs := Groups(p);
    if p.current != [] {
      FlattenAppend(p.lines, p.current);
      forall k | 0 < k < |gs|
        ensures LineWidth(gs[k - 1], fontSize) + WordWidth(gs[k][0], fontSize) > limit
      {
        assert gs[k] == NextGroup(p, k - 1);
      }
    } else {
      assert Flatten(p.lines) + [] == Flatten(p.lines);
    }
  }

  /** No word is dropped, reordered or split: the lines' words, in order, are the words of the
      text, so joining the lines with single spaces gives `' '.join(text.split())`. */
  lemma WrapKeepsWords(text: string, maxWidth: int, fontSize: int)
    ensures Flatten(WrapGroups(text, maxWidth, fontSize)) == Split(text)
    ensures JoinWords(Wrap(text, maxWidth, fontSize)) == JoinWords(Split(text))
  {
    var gs := WrapGroups(text, maxWidth, fontSize);
    GroupsPacked(Split(text), EffectiveWidth(maxWidth), fontSize);
    JoinFlatten(gs);
  }

  lemma {:induction false} JoinFlatten(gs: seq<seq<string>>)
    requires forall k :: 0 <= k < |gs| ==> gs[k] != []
    ensures JoinWords(JoinEach(gs)) == JoinWords(Flatten(gs))
  {
    if |gs| == 1 {
      assert JoinEach(gs) == [JoinWords(gs[0])];
      assert Flatten(gs) == gs[0] + Flatten(gs[1..]);
      assert Flatten(gs) == gs[0];
    } else if |gs| > 1 {
      JoinFlatten(gs[1..]);
      var rest := JoinEach(gs[1..]);
      assert JoinEach(gs) == [JoinWords(gs[0])] + rest;
      assert JoinEach(gs)[1..] == rest;
      assert gs[1..] != [] && gs[1..][0] != [];
      assert Flatten(gs[1..]) != [];
      JoinWordsAppend(gs[0], Flatten(gs[1..]));
    }
  }

  /** No empty or blank line is produced, and the result is empty exactly when the text holds
      nothing but whitespace. */
  lemma WrapLinesNonEmpty(text: string, maxWidth: int, fontSize: int)
    ensures forall k :: 0 <= k < |Wrap(text, maxWidth, fontSize)| ==>
      WrapGroups(text, maxWidth, fontSize)[k] != [] &&
      Wrap(text, maxWidth, fontSize)[k] == JoinWords(WrapGroups(text, maxWidth, fontSize)[k])
    ensures Wrap(text, maxWidth, fontSize) == [] <==> Split(text) == []
    ensures Wrap(text, maxWidth, fontSize) == [] <==> IsBlank(text)
    ensures forall k :: 0 <= k < |Wrap(text, maxWidth, fontSize)| ==> Wrap(text, maxWidth, fontSize)[k] != ""
  {
    SplitBlank(text);
    var gs := WrapGroups(text, maxWidth, fontSize);
    GroupsPacked(Split(text), EffectiveWidth(maxWidth), fontSize);
    JoinEachAt(gs);
    GroupsJoinNonEmpty(gs, Split(text));
    if gs == [] {
      assert Flatten(gs) == [];
    } else {
      assert Flatten(gs) == gs[0] + Flatten(gs[1..]);
    }
  }

  /** Groups of words join to non-empty strings. */
  lemma GroupsJoinNonEmpty(gs: seq<seq<string>>, words: seq<string>)
    requires Flatten(gs) == words && forall i :: 0 <= i < |words| ==> IsWord(words[i])
    requires forall k :: 0 <= k < |gs| ==> gs[k] != []
    ensures forall k :: 0 <= k < |gs| ==> JoinWords(gs[k]) != ""
  {
    forall k | 0 <= k < |gs|
      ensures JoinWords(gs[k]) != ""
    {
      FlattenMember(gs, k, gs[k][0]);
      assert IsWord(gs[k][0]);
    }
  }

  lemma {:induction false} JoinEachAt(gs: seq<seq<string>>)
    ensures forall k :: 0 <= k < |gs| ==> JoinEach(gs)[k] == JoinWords(gs[k])
  {
    if gs != [] {
      JoinEachAt(gs[1..]);
      forall k | 0 < k < |gs|
        ensures JoinEach(gs)[k] == JoinWords(gs[k])
      {
        assert JoinEach(gs)[k] == JoinEach(gs[1..])[k - 1];
      }
    }
  }

  /** Width bound: a line of two or more words stays within 80% of the maximal width; only a
      single word that is wider than that on its own can make a line exceed it. */
  lemma WrapWidthBound(text: string, maxWidth: int, fontSize: int)
    ensures forall g :: g in WrapGroups(text, maxWidth, fontSize) && |g| >= 2 ==>
      LineWidth(g, fontSize) <= EffectiveWidth(maxWidth)
    ensures forall g :: g in WrapGroups(text, maxWidth, fontSize) && LineWidth(g, fontSize) > EffectiveWidth(maxWidth) ==>
      |g| == 1 && WordWidth(g[0], fontSize) > EffectiveWidth(maxWidth)
  {
    var gs := WrapGroups(text, maxWidth, fontSize);
    GroupsPacked(Split(text), EffectiveWidth(maxWidth), fontSize);
    forall g | g in gs
      ensures |g| >= 2 ==> LineWidth(g, fontSize) <= EffectiveWidth(maxWidth)
      ensures LineWidth(g, fontSize) > EffectiveWidth(maxWidth) ==> |g| == 1 && WordWidth(g[0], fontSize) > EffectiveWidth(maxWidth)
    {
      assert g[..|g|] == g;
      if |g| == 1 {
        assert LineWidth(g, fontSize) == WordWidth(g[0], fontSize) by {
          assert g[..0] == [];
        }
      }
    }
  }

  /** Greedy: every line but the last was closed only because the next line's first word did
      not fit on it. */
  lemma WrapBreaksOnlyWhenFull(text: string, maxWidth: int, fontSize: int)
    ensures var gs := WrapGroups(text, maxWidth, fontSize);
      forall k :: 0 < k < |gs| ==>
        gs[k] != [] &&
        LineWidth(gs[k - 1], fontSize) + WordWidth(gs[k][0], fontSize) > EffectiveWidth(maxWidth)
  {
    GroupsPacked(Split(text), EffectiveWidth(maxWidth), fontSize);
  }

  /** Idempotence: wrapping any produced line again, with the same width and font size,
      yields exactly that line. */
  lemma WrapIdempotent(text: string, maxWidth: int, fontSize: int, k: nat)
    requires k < |Wrap(text, maxWidth, fontSize)|
    ensures Wrap(Wrap(text, maxWidth, fontSize)[k], maxWidth, fontSize) == [Wrap(text, maxWidth, fontSize)[k]]
  {
    var gs := WrapGroups(text, maxWidth, fontSize);
    var limit := EffectiveWidth(maxWidth);
    GroupsPacked(Split(text), limit, fontSize);
    JoinEachAt(gs);
    var g := gs[k];
    forall i | 0 <= i < |g|
      ensures IsWord(g[i])
    {
      FlattenMember(gs, k, g[i]);
    }
    SplitJoin(g);
    PackFitted(g, limit, fontSize);
    assert WrapGroups(JoinWords(g), maxWidth, fontSize) == [g];
  }

  /** Text whose words do not fit on one line, and that has at least two of them, is wrapped
      onto two or more lines. */
  lemma WrapSplitsOverlongText(text: string, maxWidth: int, fontSize: int)
    requires |Split(text)| >= 2 && LineWidth(Split(text), fontSize) > EffectiveWidth(maxWidth)
    ensures |Wrap(text, maxWidth, fontSize)| >= 2
  {
    var words := Split(text);
    var gs := WrapGroups(text, maxWidth, fontSize);
    GroupsPacked(words, EffectiveWidth(maxWidth), fontSize);
    if |gs| == 1 {
      assert Flatten(gs) == gs[0] + Flatten(gs[1..]);
      assert words[..|words|] == words;
    }
  }

  /** Each word is charged at least `0.9 * fontSize` (one glyph and a space). */
  lemma {:induction false} LineWidthAtLeast(line: seq<string>, fontSize: int)
    requires fontSize >= 0 && forall i :: 0 <= i < |line| ==> IsWord(line[i])
    ensures LineWidth(line, fontSize) >= (|line| as real) * (fontSize as real * 0.9)
  {
    if line != [] {
      var init := line[..|line| - 1];
      LineWidthAtLeast(init, fontSize);
      var n := |line[|line| - 1]| as real;
      assert n >= 1.0;
      assert n * (fontSize as real * 0.6) >= fontSize as real * 0.6;
    }
  }

  /** At the renderer's settings (font size 50, maximal width 1040, a budget of 832 pixels), a
      caption of 19 or more words, and so any caption of 40 words, takes two or more lines. */
  lemma WrapCaptionOfManyWords(text: string)
    requires |Split(text)| >= 19
    ensures |Wrap(text, 1040, 50)| >= 2
  {
    LineWidthAtLeast(Split(text), 50);
    WrapSplitsOverlongText(text, 1040, 50);
  }
}
