/**
 * Vertical placement of a wrapped caption block (`calculate_vertical_position`
 * in utils/video_generator.py) and the per-line offsets the scene renderer derives.
 */
module CaptionLayout {
  import opened Wrappers

  /** Distance kept from the top edge, and added above the bottom gap (SUBTITLE_MARGIN). */
  const SubtitleMargin := 30
  /** Extra space kept below a bottom-aligned block (SUBTITLE_BOTTOM_GAP). */
  const SubtitleBottomGap := 60

  /** The `ValueError` raised for an alignment other than top, center and bottom. */
  datatype LayoutError = InvalidAlignment

  /** Height of a block of `lines` lines: their glyph heights and the gaps between them. */
  function BlockHeight(lines: int, fontSize: int, lineSpacing: int): int {
    lines * fontSize + (lines - 1) * lineSpacing
  }

  /** `calculate_vertical_position`: the y offset of the first line of the block. Python's `//`
      floors; for the divisor 2 Dafny's `/` on `int` does the same. */
  function VerticalPosition(totalLines: int, fontSize: int, lineSpacing: int, videoHeight: int,
                            alignment: string): Result<int, LayoutError>
  {
    var totalHeight := BlockHeight(totalLines, fontSize, lineSpacing);
    if alignment == "top" then Success(SubtitleMargin)
    else if alignment == "center" then Success((videoHeight - totalHeight) / 2)
    else if alignment == "bottom" then Success(videoHeight - totalHeight - SubtitleMargin - SubtitleBottomGap)
    else Failure(InvalidAlignment)
  }

  /** The y offset of each line of a block whose first line is at `start`. */
  function LineOffsets(start: int, lines: nat, fontSize: int, lineSpacing: int): (ys: seq<int>)
    ensures |ys| == lines
  {
    seq(lines, idx requires 0 <= idx < lines => start + (fontSize + lineSpacing) * idx)
  }

  // ---------------------------------------------------------------------------------------------

  /** Exactly the three alignments are accepted; any other value fails. */
  lemma AlignmentAccepted(totalLines: int, fontSize: int, lineSpacing: int, videoHeight: int, alignment: string)
    ensures VerticalPosition(totalLines, fontSize, lineSpacing, videoHeight, alignment).Success?
      <==> alignment in {"top", "center", "bottom"}
  {
  }

  /** A top-aligned block starts at the margin whatever its size. */
  lemma TopIgnoresBlock(n1: int, n2: int, fontSize: int, lineSpacing: int, h1: int, h2: int)
    ensures VerticalPosition(n1, fontSize, lineSpacing, h1, "top") == VerticalPosition(n2, fontSize, lineSpacing, h2, "top")
    ensures VerticalPosition(n1, fontSize, lineSpacing, h1, "top") == Success(SubtitleMargin)
  {
  }

  /** A centred block leaves equal space above and below, the odd pixel going below
      (the result is the floor of half the free height). */
  lemma CenterIsFloorHalf(totalLines: int, fontSize: int, lineSpacing: int, videoHeight: int)
    ensures var r := VerticalPosition(totalLines, fontSize, lineSpacing, videoHeight, "center");
      var free := videoHeight - BlockHeight(totalLines, fontSize, lineSpacing);
      r.Success? && 2 * r.value <= free < 2 * r.value + 2
  {
  }

  /** A bottom-aligned block ends margin plus gap (90 pixels) above the bottom edge, and one more
      line moves its start up by exactly one line height plus spacing. */
  lemma BottomAnchored(totalLines: int, fontSize: int, lineSpacing: int, videoHeight: int)
    ensures var r := VerticalPosition(totalLines, fontSize, lineSpacing, videoHeight, "bottom");
      r.Success? && r.value + BlockHeight(totalLines, fontSize, lineSpacing) == videoHeight - SubtitleMargin - SubtitleBottomGap
    ensures VerticalPosition(totalLines + 1, fontSize, lineSpacing, videoHeight, "bottom").value
      == VerticalPosition(totalLines, fontSize, lineSpacing, videoHeight, "bottom").value - (fontSize + lineSpacing)
  {
  }

  /** With positive line height plus spacing, more lines start strictly higher. */
  lemma BottomStrictlyDecreasing(n1: int, n2: int, fontSize: int, lineSpacing: int, videoHeight: int)
    requires n1 < n2 && fontSize + lineSpacing > 0
    ensures VerticalPosition(n2, fontSize, lineSpacing, videoHeight, "bottom").value
      < VerticalPosition(n1, fontSize, lineSpacing, videoHeight, "bottom").value
  {
    var d := n2 - n1;
    assert BlockHeight(n2, fontSize, lineSpacing) - BlockHeight(n1, fontSize, lineSpacing) == d * (fontSize + lineSpacing);
  }

  /** Three lines of 50-pixel text, 20 pixels apart, bottom-aligned on a 1920-pixel frame, start
      at 1920 - (150 + 40) - 30 - 60 = 1640. */
  lemma BottomExample()
    ensures VerticalPosition(3, 50, 20, 1920, "bottom") == Success(1640)
  {
  }

  /** Consecutive lines are one line height plus spacing apart, and the last line's glyphs end
      where the block ends. */
  lemma LineOffsetsSpanBlock(start: int, lines: nat, fontSize: int, lineSpacing: int)
    requires lines >= 1
    ensures var ys := LineOffsets(start, lines, fontSize, lineSpacing);
      && ys[0] == start
      && (forall idx :: 0 < idx < lines ==> ys[idx] - ys[idx - 1] == fontSize + lineSpacing)
      && ys[lines - 1] + fontSize == start + BlockHeight(lines, fontSize, lineSpacing)
  {
    var ys := LineOffsets(start, lines, fontSize, lineSpacing);
    forall idx | 0 < idx < lines
      ensures ys[idx] - ys[idx - 1] == fontSize + lineSpacing
    {
      assert (fontSize + lineSpacing) * idx == (fontSize + lineSpacing) * (idx - 1) + (fontSize + lineSpacing);
    }
    assert (fontSize + lineSpacing) * (lines - 1) == lines * fontSize + (lines - 1) * lineSpacing - fontSize;
  }
}
