# Reel generator core in Dafny

This project models the computable core of a short-video ("reel") generator. The generator turns a
list of narrated scenes into a vertical 1080 x 1920 video with burned-in captions. The model covers
two Python files.

- `utils/video_generator.py`, the caption, layout and scene engine:
  - the greedy caption wrapper `wrap_text` (module `TextWrap`);
  - the vertical placement of a caption block, `calculate_vertical_position` (module `CaptionLayout`);
  - the letterbox arithmetic of `preprocess_image_if_needed`: scale factor, scaled size and paste
    offsets (module `Letterbox`);
  - the sort, numbering, skip and conversion loop of `preprocess_images` (module `Frames`),
    including a conversion that raises and so ends the run;
  - the scene driver `create_video_with_audio_and_subtitles` (module `SceneRenderer`). This covers
    which scenes are visited and rendered, the caption each scene gets, the escaping for ffmpeg's
    drawtext filter, the per-line y offsets, the fade-out start, the concat manifest, the
    empty-manifest error, and a failing render that aborts the run.
- `utils/subtitles_generator.py`, the subtitle timeline:
  - `format_time` (module `Timecode`);
  - the cue-building loop of `generate_audio_and_subtitle` (module `SubtitleTimeline`).

Supporting modules:

- `Wrappers`: Option and Result.
- `Strings`: Python's whitespace `split`, `' '.join`, `str.replace` of one character, `endswith`,
  and `strip()`-blankness.
- `Numerals`: `str(int)`, zero-padded `{n:0w}`, and reading decimal digits back.
- `Paths`: `os.path.join` on POSIX.

Side effects are inputs:

- the directory listings;
- the set of paths that exist;
- the size `Image.open` reports for each readable image file;
- the durations ffmpeg reports;
- the scenes whose render exits with an error;
- whether the concat succeeds;
- the subtitle texts the SRT parser returns;
- what speech synthesis returns or raises for each scene.

The source's loops are imperative methods: `TextWrap.WrapText`, `Frames.PreprocessImages`,
`SubtitleTimeline.GenerateAudioAndSubtitle`, `SceneRenderer.CreateVideoWithAudioAndSubtitles` and
`SceneRenderer.BuildCaptionFilter`. Each is proved equal to a specification function. The
properties are then proved as lemmas about those functions.

Behaviours of the code that the model follows, where a reader might expect otherwise:

- The cue index written is the scene's `scene_number`, not a 1-based running count.
- A render that exits with an error is not isolated to its scene. `check=True` raises, so the rest
  of the scenes and the concat are abandoned (`SceneRenderer.VideoOutcome`).
- A conversion in `preprocess_images` that raises (an unreadable file, a zero dimension that
  divides by zero, or a scaled side that truncates to 0 pixels, which `resize` refuses) is not caught, so the later images are never converted
  (`Frames.ConversionsOutcome`).
- The fade-out start `duration - 1` is not clamped at zero (`SceneRenderer.SceneRenderContents`).
- The scene loop runs over 1..(number of `.mp3` names). A gap in scene numbers therefore drops the
  highest-numbered scene (`SceneRenderer.GapDropsHighest`).
- Captions are looked up by position in the subtitle list, not by scene number.

## Model

| member | source | states |
|---|---|---|
| TextWrap.WordWidth | utils/video_generator.py:37-48 | definition of the estimated width of a word and its trailing space, `len(word)*0.6*fs + 0.3*fs`; `LineWidthAtLeast` |
| TextWrap.EffectiveWidth | utils/video_generator.py:34 | definition of the budget `max_width * 0.8`; `WrapWidthBound` |
| TextWrap.LineWidth | utils/video_generator.py:42-59 | definition of the running `current_line_width` of a line, the sum of its words' widths; `PackIsPacked` states that the loop's charge equals it |
| TextWrap.Wrap | utils/video_generator.py:28-65 | definition of what `wrap_text` returns: `' '.join` of each line the packing makes of `text.split()`; `WrapText` is proved equal to it, and the lemmas below state what it means |
| TextWrap.Pack | utils/video_generator.py:40-59 | definition of the loop's state (finished lines, current line, its charge) after the given words; `PackIsPacked` states the invariant it keeps |
| TextWrap.Place | utils/video_generator.py:48-59 | definition of one iteration: the word joins the current line when the charge stays within the budget, else it starts a new line and a non-empty current line is finished |
| TextWrap.Groups | utils/video_generator.py:61-63 | definition of the final lines: the finished ones, then the current one unless it is empty; `GroupsPacked` states what they are |
| TextWrap.WrapText | utils/video_generator.py:28-65 | the loop returns exactly the lines of the greedy packing `Wrap` of the whitespace-split words under 80% of the width |
| TextWrap.WrapKeepsWords | utils/video_generator.py:44-65 | no word is dropped, reordered or split: the lines' words concatenated are `text.split()`, and joining the lines with spaces equals `' '.join(text.split())` |
| TextWrap.WrapLinesNonEmpty | utils/video_generator.py:56-63 | every line is the join of a non-empty group of words and is not the empty string, and the result is `[]` exactly when the text has no words, that is exactly when it is whitespace only |
| TextWrap.WrapWidthBound | utils/video_generator.py:34-59 | a line of two or more words has estimated width at most `0.8 * max_width`; a line over that bound is one word that alone exceeds it |
| TextWrap.WrapBreaksOnlyWhenFull | utils/video_generator.py:50-59 | a new line is started only when the next word would overflow the previous line |
| TextWrap.WrapIdempotent | utils/video_generator.py:46-63 | re-wrapping any output line with the same width and font size gives exactly that line |
| TextWrap.WrapSplitsOverlongText | utils/video_generator.py:46-63 | a text of two or more words whose total estimated width exceeds the budget is wrapped onto at least two lines |
| TextWrap.WrapCaptionOfManyWords | utils/video_generator.py:34-59 | with the driver's width 1040 and font size 50, any caption of 19 or more words takes at least two lines |
| TextWrap.GroupsPacked | utils/video_generator.py:46-63 | the packed lines are non-empty, concatenate to the words, and each break happens because the next word did not fit |
| TextWrap.PackIsPacked | utils/video_generator.py:46-59 | every state of the packing loop keeps the invariant `Packed`: finished lines fit or hold one word, the current line's charge is its width |
| TextWrap.LineWidthAtLeast | utils/video_generator.py:48 | each word costs at least 0.9 font sizes, so a line's charge is at least its word count times that |
| Strings.JoinWith | utils/subtitles_generator.py:50 | definition of `sep.join(xs)`; `JoinWords` is it with `' '` |
| Strings.Split | utils/video_generator.py:44 | definition of `str.split()`: the maximal runs of non-whitespace, in order, each a word (its own ensures); `SplitJoin` and `SplitBlank` relate it to joining and to `strip()` |
| Strings.JoinWords | utils/video_generator.py:57 | definition of `' '.join`; `SplitJoin` makes `Split` its inverse on words |
| Strings.ReplaceChar | utils/video_generator.py:22 | definition of `str.replace` with a one-character pattern; `ReplaceCharAppend`, `ReplaceCharAbsent` and `ReplaceCharRemoves` state its properties |
| Strings.ReplaceCharAppend | utils/video_generator.py:204-205 | replacing in a concatenation is replacing in each part |
| Strings.ReplaceCharAbsent | utils/video_generator.py:204-205 | a string without the character is unchanged |
| Strings.ReplaceCharRemoves | utils/video_generator.py:22 | when the replacement does not contain the character, none is left |
| Strings.EndsWith | utils/video_generator.py:122 | definition of `str.endswith` for one suffix |
| Strings.IsBlank | utils/video_generator.py:246-248 | definition of "`strip()` gives the empty string"; `SplitBlank` ties it to `split()` |
| Strings.CountEndingWith | utils/video_generator.py:165-166 | the number of names with the suffix, never more than the listing's length |
| Strings.SplitJoin | utils/video_generator.py:44-57 | splitting the space-join of whitespace-free words gives back those words |
| Strings.SplitBlank | utils/video_generator.py:44 | `text.split()` is empty exactly when the text is whitespace only |
| CaptionLayout.BlockHeight | utils/video_generator.py:72 | definition of `total_lines*fs + (total_lines-1)*spacing`; `BottomAnchored` |
| CaptionLayout.LineOffsets | utils/video_generator.py:206-207 | the y offset of each line, one per line (its ensures); `LineOffsetsSpanBlock` states their spacing and span |
| CaptionLayout.VerticalPosition | utils/video_generator.py:68-82 | definition of `calculate_vertical_position`, the `ValueError` as a failure; the lemmas below state its value for each alignment |
| CaptionLayout.AlignmentAccepted | utils/video_generator.py:75-82 | the position is defined exactly for `top`, `center` and `bottom`; any other alignment fails |
| CaptionLayout.TopIgnoresBlock | utils/video_generator.py:75-76 | `top` gives the margin 30 whatever the line count, font and height |
| CaptionLayout.CenterIsFloorHalf | utils/video_generator.py:77-78 | `center` gives the floor of half the space left by the block |
| CaptionLayout.BottomAnchored | utils/video_generator.py:79-80 | `bottom` puts the block's end 90 pixels above the bottom edge, and one more line lowers the offset by exactly `fs + spacing` |
| CaptionLayout.BottomStrictlyDecreasing | utils/video_generator.py:72-80 | for `bottom`, more lines give a strictly smaller offset |
| CaptionLayout.BottomExample | utils/video_generator.py:72-80 | 3 lines, font 50, spacing 20, height 1920 give 1640 |
| CaptionLayout.LineOffsetsSpanBlock | utils/video_generator.py:206-207 | line offsets start at the block start, are `fs + spacing` apart, and the last line ends at start plus the block height |
| Letterbox.Scaled | utils/video_generator.py:95-107 | definition of the geometry of a non-degenerate image: the smaller of the two ratios, then `Resized`; `FitMatchesIntegral` and `FitWithinCanvas` state what it is |
| Letterbox.Resized | utils/video_generator.py:100-107 | definition of the sides `int(side * scale)` (the floor, the scale being positive) and the offsets `Centre` |
| Letterbox.Centre | utils/video_generator.py:105-106 | definition of `(target - size) // 2`; `FitWithinCanvas` states that it centres to within a pixel |
| Letterbox.Fit | utils/video_generator.py:89-107 | the arithmetic fails only on a zero dimension, the division error (the resize that can still raise is `Frames.Convert`); otherwise the scaled size is the integer reference (full width and `1080*h//w`, or `1920*w//h` and full height), fits the 1080 x 1920 canvas, meets it on one side, and is pasted at non-negative offsets that centre it to within a pixel |
| Letterbox.FitMatchesIntegral | utils/video_generator.py:95-101 | the scaled size `int(w*scale)`, `int(h*scale)` equals the integer reference: full width and `1080*h//w` when the image is relatively wide, else `1920*w//h` and full height |
| Letterbox.FitWithinCanvas | utils/video_generator.py:95-107 | the scaled image fits in 1080 x 1920, meets it on one side, and the paste offsets are non-negative and centre it to within a pixel |
| Letterbox.ScaledSide | utils/video_generator.py:100-101 | scaling a side by `target / d` and truncating is the integer quotient `target * n // d` |
| Letterbox.FitSquareExample | utils/video_generator.py:92-107 | a 1000 x 1000 image is scaled by 1.08 to 1080 x 1080 and pasted at (0, 420) |
| Paths.PathJoin | utils/video_generator.py:123-124 | `os.path.join` on POSIX: the joined path ends with the name |
| Frames.LexLe | utils/video_generator.py:121 | definition of Python's `<=` on strings behind `sorted`; `LexLeTotal` and `TenSortsBeforeTwo` |
| Frames.IsImageName | utils/video_generator.py:122 | definition of the case-sensitive suffix test; `ImageNamesMembers` |
| Frames.ImageNames | utils/video_generator.py:121-122 | the counted names, in listing order, never more than the listing; `ImageNamesMembers` states which they are |
| Frames.FrameName | utils/video_generator.py:124 | definition of `image{k}.jpg`; `FrameNamesDistinct` |
| Frames.Plan | utils/video_generator.py:120-129 | definition of each counted name's source path and numbered target; `PlanNumbering` states the numbering |
| Frames.Pending | utils/video_generator.py:126-127 | definition of the planned frames whose target does not exist; `PendingMembers`, `PendingSkipsExisting` and `PreprocessIdempotent` |
| Frames.Convert | utils/video_generator.py:85-110 | definition of one call of `preprocess_image_if_needed`: the exception it raises (unreadable file, zero dimension, or a scaled side of 0 pixels), or the geometry it pastes with; `ConvertFails` |
| Frames.Conversions | utils/video_generator.py:121-129 | definition of the conversions carried out one after the other until one raises; `ConversionsOutcome` |
| Frames.Sort | utils/video_generator.py:121 | `sorted` gives an ordered permutation of the listing |
| Frames.Insert | utils/video_generator.py:121 | inserting into an ordered list keeps it ordered and adds exactly that name |
| Frames.LexLeTotal | utils/video_generator.py:121 | Python's string order is total |
| Frames.TenSortsBeforeTwo | utils/video_generator.py:121 | `image10.png` sorts before `image2.png` |
| Frames.PreprocessImages | utils/video_generator.py:113-129 | the loop carries out the pending conversions of the plan over the sorted listing, in order, until one raises, exactly as `Conversions` runs them |
| Frames.ConversionsOutcome | utils/video_generator.py:121-129 | the conversions carried out are the longest run of pending frames whose conversion succeeds, each with its image's geometry; a failure names the next pending frame, whose conversion raised, and no later frame is converted |
| Frames.ConvertFails | utils/video_generator.py:85-110 | a conversion raises exactly when the file cannot be opened, has a zero dimension, or is wider than 1080 times its height or taller than 1920 times its width (a scaled side of 0 pixels, which `resize` refuses); otherwise it pastes with the `Letterbox.Fit` geometry of the image's size, both sides positive |
| Frames.ScaledSidesPositive | utils/video_generator.py:95-103 | both scaled sides are positive exactly when `w <= 1080*h` and `h <= 1920*w` |
| Frames.SliverFails | utils/video_generator.py:100-103 | a 1 x 2000 image would be resized to 0 x 1920, so its conversion raises |
| Frames.PlanNumbering | utils/video_generator.py:120-129 | the k-th counted name in the given order is assigned the target `image{k}.jpg`, and other names take no number |
| Frames.ImageNamesMembers | utils/video_generator.py:122 | the counted names are exactly the listed names ending in `.jpg`, `.jpeg` or `.png` |
| Frames.FrameNamesDistinct | utils/video_generator.py:124 | different numbers give different frame names |
| Frames.PendingSkipsExisting | utils/video_generator.py:126-129 | a frame is converted exactly when its output does not exist, and a skipped frame still consumes its number |
| Frames.PendingMembers | utils/video_generator.py:126-127 | the conversions are exactly the planned frames whose output is absent |
| Frames.PreprocessIdempotent | utils/video_generator.py:126-127 | once the outputs of one run exist, a second run converts nothing |
| Numerals.IntToString | utils/subtitles_generator.py:39 | definition of `str(scene_number)` for any integer, a `-` before a negative one; `CueBlock` |
| Numerals.NatToString | utils/video_generator.py:124 | definition of `str(n)`, never empty; `NatToStringValue` and `ParseNatToString` state that it denotes `n` |
| Numerals.ZeroPad | utils/subtitles_generator.py:9 | definition of `{n:0w}`; `ZeroPadNat` and `ParseZeroPad` |
| Numerals.NatToStringValue | utils/video_generator.py:124 | `str(n)` is all digits and reads back as `n` |
| Numerals.ZeroPadNat | utils/subtitles_generator.py:9 | `{n:0w}` is all digits, at least `w` long, reads back as `n`, and is exactly `w` long when `n < 10^w` |
| Numerals.ParseNatToString | utils/video_generator.py:124 | reading back `str(n)` gives `n` |
| Numerals.ParseZeroPad | utils/subtitles_generator.py:9 | reading back a zero-filled field `{n:0w}` gives `n`, whatever the width |
| Timecode.FloorDiv | utils/subtitles_generator.py:9 | definition of Python's float `//` by a positive divisor, the floor of the quotient; `ComponentsOf` |
| Timecode.Trunc | utils/subtitles_generator.py:8-9 | definition of `int()` on a float, truncation toward zero; `ComponentsOf` |
| Timecode.Components | utils/subtitles_generator.py:8-9 | definition of the four printed integers, with Python's float `//`, `%` and `int()`; `ComponentsOf` states their ranges and meaning |
| Timecode.FormatTime | utils/subtitles_generator.py:4-10 | definition of `format_time`; `ParseFormat` and `FormatShape` state what the text denotes and its shape |
| Timecode.FloorMod | utils/subtitles_generator.py:9 | Python's float `%` by a positive divisor lies in `[0, d)` |
| Timecode.ComponentsOf | utils/subtitles_generator.py:8-9 | for `s >= 0` minutes and seconds are in 0..59, milliseconds in 0..999, and `h*3600000 + m*60000 + sec*1000 + ms == floor(1000*s)` |
| Timecode.ParseFormat | utils/subtitles_generator.py:8-9 | reading the formatted text back gives `floor(1000*s)` milliseconds: it denotes `s` truncated, not rounded |
| Timecode.FormatShape | utils/subtitles_generator.py:9 | below 100 hours the text is twelve characters `HH:MM:SS,mmm`, digits around the separators |
| Timecode.FormatZero | utils/subtitles_generator.py:8-9 | 0 seconds is `00:00:00,000` |
| Timecode.FormatFraction | utils/subtitles_generator.py:8-9 | 3.2 seconds is `00:00:03,200` |
| Timecode.FormatWhole | utils/subtitles_generator.py:8-9 | 8 seconds is `00:00:08,000` |
| SubtitleTimeline.Emits | utils/subtitles_generator.py:27-29 | definition of the truthiness of the returned duration; `SkippedScene` |
| SubtitleTimeline.Elapsed | utils/subtitles_generator.py:19-46 | definition of the clock after the calls: the sum of the truthy durations; `TimelineContiguous` |
| SubtitleTimeline.Timeline | utils/subtitles_generator.py:22-46 | definition of the cues the loop builds; `TimelineMatchesEmitted`, `TimelineContiguous` and `TimelineIncreasing` state what they are |
| SubtitleTimeline.Blocks | utils/subtitles_generator.py:39-43 | definition of the items' blocks of lines concatenated in order; `CueLinesAt` |
| SubtitleTimeline.CueLines | utils/subtitles_generator.py:39-43 | definition of the lines of the cue file; `CueLinesAt` |
| SubtitleTimeline.SrtOutput | utils/subtitles_generator.py:17-54 | definition of the written text, the `'\n'.join` of the cue lines, or nothing when a call raised; `GenerateAudioAndSubtitle` and `RaiseWritesNothing` |
| SubtitleTimeline.GenerateAudioAndSubtitle | utils/subtitles_generator.py:13-54 | the loop writes the cue lines of the timeline joined by newlines, or nothing when a synthesis call raised |
| SubtitleTimeline.TimelineMatchesEmitted | utils/subtitles_generator.py:22-46 | the k-th cue is the k-th scene with a truthy duration: its scene number and text, starting at the sum of the earlier durations and lasting its own |
| SubtitleTimeline.TimelineContiguous | utils/subtitles_generator.py:19-46 | the first cue starts at 0, each starts where the previous ended, and the last ends at the final clock |
| SubtitleTimeline.TimelineIncreasing | utils/subtitles_generator.py:29-46 | with non-negative durations every cue has positive length and starts strictly increase |
| SubtitleTimeline.TimelinePositive | utils/subtitles_generator.py:31-32 | with non-negative durations each emitted cue ends after it starts |
| SubtitleTimeline.SkippedScene | utils/subtitles_generator.py:27-29 | a scene whose duration is `None` or 0 adds no cue and does not move the clock |
| SubtitleTimeline.CueBlock | utils/subtitles_generator.py:39-43 | a cue is written as four lines |
| SubtitleTimeline.CueLinesAt | utils/subtitles_generator.py:39-43 | each cue contributes four lines in cue order: index, time range, text, blank |
| SubtitleTimeline.RaiseWritesNothing | utils/subtitles_generator.py:17-54 | an exception for any scene abandons the run and no cue text is written |
| SubtitleTimeline.TwoSceneExample | utils/subtitles_generator.py:31-46 | scenes of 3.2 and 4.8 seconds get the cues 0 to 3.2 and 3.2 to 8.0 |
| SubtitleTimeline.GapKeepsSceneNumbers | utils/subtitles_generator.py:23-43 | a scene without audio leaves a gap: scenes 1 and 3 are written with indices 1 and 3 |
| SceneRenderer.Escape | utils/video_generator.py:204-205 | definition of the replace chain; `EscapeIsEach`, `UnescapeEscape` and `EscapeInjective` |
| SceneRenderer.CaptionText | utils/video_generator.py:186-187 | definition of the subtitle at position `i-1`, or `""` past the end; `SceneRenderContents` |
| SceneRenderer.CaptionFilter | utils/video_generator.py:188-216 | definition of the caption part of the `-vf` argument; `CaptionFilterShape` |
| SceneRenderer.ImagePath | utils/video_generator.py:170 | definition of `os.path.join(output_dir, f"image{i}.jpg")`; `SceneRenderContents` |
| SceneRenderer.AudioPath | utils/video_generator.py:171 | definition of `os.path.join(audio_dir, f"scene{i}.mp3")`; `SceneRenderContents` |
| SceneRenderer.TempVideo | utils/video_generator.py:172 | definition of `os.path.join(base_dir, f"temp_scene_{i}.mp4")`; `ManifestAt` |
| SceneRenderer.Eligible | utils/video_generator.py:174-181 | definition of "image and audio exist and the duration is known"; `SelectedMembers` |
| SceneRenderer.SceneRender | utils/video_generator.py:170-239 | definition of the render of an eligible scene; `SceneRenderContents` |
| SceneRenderer.SceneCount | utils/video_generator.py:165-166 | definition of the number of `.mp3` names; `GapDropsHighest` |
| SceneRenderer.Visit | utils/video_generator.py:169-181 | definition of what iteration `i` attempts: the scene's render, or nothing (`continue`) |
| SceneRenderer.VisitOf | utils/video_generator.py:169-181 | `Visit` for one environment, as a function value, so that `Loop` is stated for any visit |
| SceneRenderer.Loop | utils/video_generator.py:169-241 | definition of the loop over 1..n that stops changing once a render fails; `LoopComplete`, `LoopFailure`, `LoopRenders` and `LoopFailureSticks` |
| SceneRenderer.ManifestLine | utils/video_generator.py:241 | definition of `file '<path>'` and a newline; `ManifestAt` |
| SceneRenderer.Video | utils/video_generator.py:155-287 | definition of the whole run: renders, manifest and outcome; `VideoOutcome` and `VideoRenders` |
| SceneRenderer.CreateVideoWithAudioAndSubtitles | utils/video_generator.py:155-287 | the driver's loop produces exactly the renders, manifest and outcome of the run `Video` |
| SceneRenderer.BuildCaptionFilter | utils/video_generator.py:188-216 | the caption loop builds exactly the filter `CaptionFilter` of the wrapped subtitle |
| SceneRenderer.SubtitleTexts | utils/video_generator.py:22 | each subtitle's text with `\n` replaced by a space, one per subtitle; `SubtitleTextsAt` |
| SceneRenderer.ReadSrt | utils/video_generator.py:16-25 | an unparsable file gives no subtitles; otherwise one text per subtitle |
| SceneRenderer.SubtitleTextsAt | utils/video_generator.py:22 | each text is its subtitle with line breaks replaced by spaces |
| SceneRenderer.CaptionFilterShape | utils/video_generator.py:185-216 | the filter is `null` exactly when the caption has no words; otherwise one drawtext per wrapped line, in order, each unescaping to its line, at `y = start + 70*idx`, shown for the whole audio, the block ending 90 pixels above the bottom |
| SceneRenderer.Draws | utils/video_generator.py:203-214 | one drawtext per line |
| SceneRenderer.DrawsAt | utils/video_generator.py:203-207 | the k-th drawtext is the k-th line escaped, at the k-th line offset of the block |
| SceneRenderer.UnescapeEscape | utils/video_generator.py:204-205 | the escape chain has a left inverse `Unescape`, so escaping loses nothing |
| SceneRenderer.EscapeInjective | utils/video_generator.py:203-205 | distinct caption lines escape to distinct drawtext texts |
| SceneRenderer.EscapeIsEach | utils/video_generator.py:204-205 | the two-step replace chain escapes each `'` as `'\''` and each `:` as `\:`, character by character |
| SceneRenderer.EscapePlain | utils/video_generator.py:204-205 | a line without quotes or colons is unchanged |
| SceneRenderer.EscapeExample | utils/video_generator.py:204-205 | `it's` becomes `it'\''s` |
| SceneRenderer.EscapeColonExample | utils/video_generator.py:204-205 | `5:30` becomes `5\:30` |
| SceneRenderer.CaptionExample | utils/video_generator.py:185-216 | the caption `5:30` is one drawtext of `5\:30` at y = 1780 shown for the 4 seconds |
| SceneRenderer.WrapOneWordExample | utils/video_generator.py:188-189 | a one-word caption stays one line |
| SceneRenderer.SceneRenderContents | utils/video_generator.py:170-227 | a render uses `image{i}.jpg` and `scene{i}.mp3`, the audio's duration, the caption at position `i-1` or none past the end, and the fade-out start `duration - 1`, unclamped, so negative for audio shorter than a second |
| SceneRenderer.AttemptedMembers | utils/video_generator.py:169-181 | the attempted scenes are exactly those in 1..n with something to render, strictly ascending |
| SceneRenderer.SelectedMembers | utils/video_generator.py:169-181 | the eligible scenes are exactly those in 1..n whose image and audio exist and whose duration is known, strictly ascending |
| SceneRenderer.LoopComplete | utils/video_generator.py:169-241 | with no failed render, the loop rendered exactly the attempted scenes in order |
| SceneRenderer.LoopFailure | utils/video_generator.py:169-241 | a failure at scene f means f was attempted and failed, after exactly the attempted scenes before f |
| SceneRenderer.LoopRenders | utils/video_generator.py:169-241 | every render of the loop is the render some scene in 1..n attempts |
| SceneRenderer.LoopFailureSticks | utils/video_generator.py:239-241 | after a failed render nothing more happens |
| SceneRenderer.FailureSticks | utils/video_generator.py:239-241 | after a failed render the driver's loop state stays fixed |
| SceneRenderer.ScenesRenders | utils/video_generator.py:169-241 | every render of the driver's loop is an eligible scene in 1..n, rendered as that scene calls for |
| SceneRenderer.ScenesComplete | utils/video_generator.py:169-241 | with no failed render the driver rendered exactly the eligible scenes in ascending order, none failing |
| SceneRenderer.ScenesFailure | utils/video_generator.py:169-241 | a failed render is at the first eligible scene that fails, after exactly the eligible scenes before it |
| SceneRenderer.Manifest | utils/video_generator.py:241 | one manifest line per rendered scene |
| SceneRenderer.ManifestAt | utils/video_generator.py:241 | the k-th manifest line is `file '<temporary video>'` for the k-th render |
| SceneRenderer.ManifestBlank | utils/video_generator.py:246-249 | the manifest's stripped content is empty exactly when nothing was rendered |
| SceneRenderer.SceneNumbersAt | utils/video_generator.py:169 | the scene numbers list the renders' scenes at the same positions |
| SceneRenderer.VideoRenders | utils/video_generator.py:169-241 | every render of a run is a visited eligible scene rendered as it calls for, with its manifest line at the same position |
| SceneRenderer.VideoOutcome | utils/video_generator.py:243-287 | the run stops on an empty manifest exactly when no scene is eligible; a failed render stops it at the first eligible failing scene; otherwise every eligible scene was rendered in order and the result is the concat's |
| SceneRenderer.GapDropsHighest | utils/video_generator.py:165-169 | audio files `scene1.mp3` and `scene3.mp3` give a scene count of 2, so scene 3 is never rendered |

## Left out

- Float arithmetic is modelled with exact reals. This covers the width estimates, the scale
  factor, `int(w*scale)`, `format_time` and the running clock. At boundary cases CPython's IEEE-754
  results can differ, for example `int(w*scale)` giving 1079, or `format_time` losing a
  millisecond to representation error.
- Pixel work is not modelled: decoding, LANCZOS resizing, the black canvas, pasting and saving,
  and creating the output directory. `Image.open` is an input (`sizes`: the size of each readable
  image file; a path without an entry cannot be opened). A save that raises is not modelled.
- How ffmpeg itself unquotes and renders the escaped drawtext text is not modelled.
  `SceneRenderer.Unescape` only shows that the escape chain loses nothing.
- Letterbox.Fit: the geometry is stated for natural dimensions. A PIL image never has negative
  ones.
- `get_audio_duration` and ffmpeg's stderr parsing are left out. The duration is an input
  (`Env.durations`; a path without an entry is `None`).
- `pysrt` parsing is left out. The parsed subtitle texts are an input (`Env.srt`, `None` when
  parsing raises); only the line-break replacement is modelled.
- Speech synthesis (`generate_audio`) is an oracle input per scene: a duration, `None`, or an
  exception.
- The ffmpeg argument vectors and process invocations are not modelled. This includes the
  codecs, frame rate and the fade-in. A render is modelled by its scene, paths, duration, caption
  filter and fade-out start. Exit statuses are inputs (`Env.failing`, `Env.concatSucceeds`).
- SceneRenderer.DrawText: the drawtext filter is kept as its text, y offset and time window, not
  as the formatted option string. The same holds for `str(audio_duration)`.
- Writing, reading and deleting files and cleaning up the temporary clips are not modelled, nor
  is `os.getcwd()`. `Env.baseDir` stands for the working directory and is taken as absolute, so
  `os.path.abspath` leaves the temporary paths unchanged.
- The "Concat list file was not created" check is not modelled. The manifest is opened for
  writing before the loop, so it always exists when the check runs.
- The `ADD_SUBTITLES = False` branch is not modelled. The constant is `True`, so the branch is
  dead code.
- Printing (progress and diagnostics) is not modelled. The outer exception handlers are modelled
  only as the run's final status.
- SubtitleTimeline.TwoSceneExample: it states the cue times. Their text form is stated separately
  by `Timecode.FormatZero`, `Timecode.FormatFraction` and `Timecode.FormatWhole`, not as one
  rendered file.
- `ai_reel_generator.py`, `utils/tts.py`, `utils/image_generator.py`, `utils/image_downloader.py`
  and the download retry counter are not part of this model.
