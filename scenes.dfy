/**
 * The scene loop of `create_video_with_audio_and_subtitles` (utils/video_generator.py).
 *
 * Scenes 1..n are visited in order, n being the number of `.mp3` names in the
 * audio directory. A scene is rendered when `image{i}.jpg` and `scene{i}.mp3`
 * exist and the audio's duration is known; its caption is the i-th subtitle
 * text, wrapped, escaped for ffmpeg's drawtext filter and stacked upwards from
 * the bottom of the frame. Every rendered scene adds one line to the concat
 * manifest. A failing render escapes the loop and abandons the run; an empty
 * manifest stops the run before the concat step.
 *
 * The file system, ffmpeg and the SRT parser are inputs (`Env`): the paths that
 * exist, the durations ffmpeg reports, the scenes whose render fails, whether
 * the concat succeeds, and the subtitle texts the parser returns.
 */
module SceneRenderer {
  import opened Wrappers
  import opened Strings
  import opened Numerals
  import opened Paths
  import opened TextWrap
  import opened CaptionLayout
  import Frames

  /** FONT_SIZE, the drawtext line spacing, the frame height, the wrap width (1080 - 40) and
      SUBTITLE_VERTICAL_ALIGNMENT. */
  const FontSize := 50
  const LineSpacing := 20
  const VideoHeight := 1920
  const CaptionMaxWidth := 1080 - 40
  const Alignment := "bottom"

  /** The replacements of the escape chain: `'` becomes `'\''`, `:` becomes `\:`. */
  const QuoteEscape := "'\\''"
  const ColonEscape := "\\:"

  /** One `drawtext` filter: the escaped line, its y offset, and the end `d` of its time window
      `between(t,0,d)`. */
  datatype DrawText = DrawText(text: string, y: int, until: real)

  /** The caption part of the `-vf` argument: `null`, or one drawtext per line, in line order. */
  datatype VideoFilter = NullFilter | DrawTexts(draws: seq<DrawText>)

  /** One ffmpeg render: the scene, its image, its audio, the temporary video it writes, the
      audio's duration (the `-t` value), the caption filter and the start of the fade-out. */
  datatype Render = Render(scene: nat, image: string, audio: string, output: string,
                           duration: real, filter: VideoFilter, fadeOutStart: real)

  /** How the run ends: the concat was attempted and succeeded or failed, a render failed, or the
      manifest was empty. */
  datatype Status = Assembled | ConcatFailed | RenderFailed(scene: nat) | EmptyManifest

  /** The renders performed, the manifest lines written, and the outcome. */
  datatype Run = Run(renders: seq<Render>, manifest: seq<string>, status: Status)

  /** Everything the driver learns from outside: the directories, the audio directory's listing,
      the SRT parser's texts (`None` when parsing fails), the existing paths, the durations ffmpeg
      reports (a path without one has no known duration), the scenes whose render exits with an
      error, and whether the concat succeeds. */
  datatype Env = Env(outputDir: string, audioDir: string, baseDir: string,
                     listing: seq<string>, srt: Option<seq<string>>,
                     existing: set<string>, durations: map<string, real>,
                     failing: set<nat>, concatSucceeds: bool)

  // ---------------------------------------------------------------------------------------------
  // Captions

  /** `read_srt_file`: each subtitle's text with its line breaks replaced by spaces, or no
      subtitles when the file cannot be parsed. */
  function ReadSrt(srt: Option<seq<string>>): (texts: seq<string>)
    ensures srt.None? ==> texts == []
    ensures srt.Some? ==> |texts| == |srt.value|
  {
    match srt
    case None => []
    case Some(subs) => SubtitleTexts(subs)
  }

  function SubtitleTexts(subs: seq<string>): (texts: seq<string>)
    ensures |texts| == |subs|
  {
    if subs == [] then [] else [ReplaceChar(subs[0], '\n', " ")] + SubtitleTexts(subs[1..])
  }

  /** The caption of scene `i`: the subtitle at position `i - 1`, or nothing past the end. */
  function CaptionText(subtitles: seq<string>, i: nat): string
    requires i >= 1
  {
    if i - 1 < |subtitles| then subtitles[i - 1] else ""
  }

  /** The `replace` chain applied to every caption line. */
  function Escape(s: string): string {
    ReplaceChar(ReplaceChar(s, '\'', QuoteEscape), ':', ColonEscape)
  }

  /** The escaping a character undergoes. */
  function EscapeChar(c: char): string {
    if c == '\'' then QuoteEscape else if c == ':' then ColonEscape else [c]
  }

  /** A reference for `Escape`: every character escaped on its own. */
  function EscapeEach(s: string): string {
    if s == [] then [] else EscapeChar(s[0]) + EscapeEach(s[1..])
  }

  /** A decoding that undoes the escape chain: each `'\''` becomes `'` again and each `\:`
      becomes `:`. It is a left inverse of `Escape` (`UnescapeEscape`), so escaping loses nothing
      and distinct lines stay distinct; it is not a model of how ffmpeg parses the filter. */
  function Unescape(e: string): string
    decreases |e|
  {
    if |e| >= 4 && e[..4] == QuoteEscape then "'" + Unescape(e[4..])
    else if |e| >= 2 && e[..2] == ColonEscape then ":" + Unescape(e[2..])
    else if e == [] then []
    else [e[0]] + Unescape(e[1..])
  }

  /** The drawtext filters of a wrapped caption whose first line is at `start`. */
  function Draws(lines: seq<string>, start: int, until: real): (ds: seq<DrawText>)
    ensures |ds| == |lines|
  {
    if lines == [] then []
    else
      var n := |lines| - 1;
      Draws(lines[..n], start, until) + [DrawText(Escape(lines[n]), start + (FontSize + LineSpacing) * n, until)]
  }

  /** The caption filter for `text` shown for `duration` seconds. */
  function CaptionFilter(text: string, duration: real): VideoFilter {
    var lines := Wrap(text, CaptionMaxWidth, FontSize);
    if lines == [] then NullFilter
    else
      var position := VerticalPosition(|lines|, FontSize, LineSpacing, VideoHeight, Alignment);
      DrawTexts(Draws(lines, position.value, duration))
  }

  // ---------------------------------------------------------------------------------------------
  // The scene loop

  /** `image{i}.jpg` in the frame directory. */
  function ImagePath(env: Env, i: nat): string {
    PathJoin(env.outputDir, Frames.FrameName(i))
  }

  /** `scene{i}.mp3` in the audio directory. */
  function AudioPath(env: Env, i: nat): string {
    PathJoin(env.audioDir, "scene" + NatToString(i) + ".mp3")
  }

  /** `temp_scene_{i}.mp4` in the working directory. */
  function TempVideo(env: Env, i: nat): string {
    PathJoin(env.baseDir, "temp_scene_" + NatToString(i) + ".mp4")
  }

  /** Scene `i` is rendered unless its image or audio is missing or its duration is unknown. */
  predicate Eligible(env: Env, i: nat) {
    ImagePath(env, i) in env.existing && AudioPath(env, i) in env.existing && AudioPath(env, i) in env.durations
  }

  /** The render of an eligible scene. The fade-out starts one second before the end, and is not
      clamped at zero. */
  function SceneRender(env: Env, i: nat): Render
    requires i >= 1 && Eligible(env, i)
  {
    var d := env.durations[AudioPath(env, i)];
    Render(i, ImagePath(env, i), AudioPath(env, i), TempVideo(env, i), d,
           CaptionFilter(CaptionText(ReadSrt(env.srt), i), d), d - 1.0)
  }

  /** The number of scenes visited: the `.mp3` names in the audio directory. */
  function SceneCount(env: Env): nat {
    CountEndingWith(env.listing, ".mp3")
  }

  /** The renders done so far, and the scene whose render failed, if one did. */
  datatype Progress = Progress(renders: seq<Render>, failed: Option<nat>)

  /** What the loop does at scene `i`: nothing, or the render it attempts. */
  function Visit(env: Env, i: nat): Option<Render> {
    if i >= 1 && Eligible(env, i) then Some(SceneRender(env, i)) else None
  }

  function VisitOf(env: Env): nat -> Option<Render> {
    (i: nat) => Visit(env, i)
  }

  /** The loop over scenes 1..n, whatever each scene attempts; once a render fails nothing more
      happens. */
  function Loop(n: nat, visit: nat -> Option<Render>, failing: set<nat>): Progress {
    if n == 0 then Progress([], None)
    else
      var p := Loop(n - 1, visit, failing);
      if p.failed.Some? || visit(n).None? then p
      else if n in failing then Progress(p.renders, Some(n))
      else Progress(p.renders + [visit(n).value], None)
  }

  /** The driver's loop over scenes 1..n. */
  function Scenes(env: Env, n: nat): Progress {
    Loop(n, VisitOf(env), env.failing)
  }

  /** The manifest line of a scene's temporary video. */
  function ManifestLine(path: string): string {
    "file '" + path + "'\n"
  }

  function Manifest(renders: seq<Render>): (lines: seq<string>)
    ensures |lines| == |renders|
  {
    if renders == [] then []
    else Manifest(renders[..|renders| - 1]) + [ManifestLine(renders[|renders| - 1].output)]
  }

  /** The whole run. */
  function Video(env: Env): Run {
    var p := Scenes(env, SceneCount(env));
    var manifest := Manifest(p.renders);
    Run(p.renders, manifest,
        if p.failed.Some? then RenderFailed(p.failed.value)
        else if IsBlank(Flatten(manifest)) then EmptyManifest
        else if env.concatSucceeds then Assembled
        else ConcatFailed)
  }

  /** `create_video_with_audio_and_subtitles`, written as the source's loops. */
  method CreateVideoWithAudioAndSubtitles(env: Env) returns (run: Run)
    ensures run == Video(env)
  {
    var subtitles := ReadSrt(env.srt);
    var manifest: seq<string> := [];
    var renders: seq<Render> := [];
    var failed: Option<nat> := None;
    var sceneCount := CountEndingWith(env.listing, ".mp3");
    var i := 1;
    while i <= sceneCount && failed.None?
      invariant 1 <= i <= sceneCount + 1
      invariant Scenes(env, i - 1) == Progress(renders, failed)
      invariant manifest == Manifest(renders)
      decreases sceneCount + 1 - i
    {
      var imagePath := PathJoin(env.outputDir, "image" + NatToString(i) + ".jpg");
      var audioPath := PathJoin(env.audioDir, "scene" + NatToString(i) + ".mp3");
      var tempVideo := PathJoin(env.baseDir, "temp_scene_" + NatToString(i) + ".mp4");
      assert imagePath == ImagePath(env, i) && audioPath == AudioPath(env, i) && tempVideo == TempVideo(env, i);
      if imagePath in env.existing && audioPath in env.existing && audioPath in env.durations {
        var audioDuration := env.durations[audioPath];
        var subtitleText := if i - 1 < |subtitles| then subtitles[i - 1] else "";
        var filter := BuildCaptionFilter(subtitleText, audioDuration);
        assert VisitOf(env)(i) == Some(SceneRender(env, i));
        if i in env.failing {
          assert Scenes(env, i) == Progress(renders, Some(i));
          failed := Some(i);
        } else {
          var render := Render(i, imagePath, audioPath, tempVideo, audioDuration, filter, audioDuration - 1.0);
          assert render == SceneRender(env, i);
          assert Scenes(env, i) == Progress(renders + [render], None);
          assert (renders + [render])[..|renders|] == renders;
          renders := renders + [render];
          manifest := manifest + [ManifestLine(tempVideo)];
        }
      } else {
        assert VisitOf(env)(i) == None;
        assert Scenes(env, i) == Scenes(env, i - 1);
      }
      i := i + 1;
    }
    if failed.Some? {
      FailureSticks(env, i - 1, sceneCount);
    }
    var content := Flatten(manifest);
    var status;
    if failed.Some? {
      status := RenderFailed(failed.value);
    } else if IsBlank(content) {
      status := EmptyManifest;
    } else if env.concatSucceeds {
      status := Assembled;
    } else {
      status := ConcatFailed;
    }
    run := Run(renders, manifest, status);
  }

  /** The caption block of one scene: wrap, place, escape, one drawtext per line. */
  method BuildCaptionFilter(subtitleText: string, audioDuration: real) returns (filter: VideoFilter)
    ensures filter == CaptionFilter(subtitleText, audioDuration)
  {
    var wrapped := WrapText(subtitleText, 1080 - 40, FontSize);
    if wrapped == [] {
      filter := NullFilter;
    } else {
      var lineSpacing := 20;
      var verticalPosition := VerticalPosition(|wrapped|, FontSize, lineSpacing, 1920, Alignment);
      var start := verticalPosition.value;
      var filterComplex: seq<DrawText> := [];
      for idx := 0 to |wrapped|
        invariant filterComplex == Draws(wrapped[..idx], start, audioDuration)
      {
        var segText := ReplaceChar(ReplaceChar(wrapped[idx], '\'', "'\\''"), ':', "\\:");
        var yPosition := start + (FontSize + lineSpacing) * idx;
        assert wrapped[..idx + 1][..idx] == wrapped[..idx];
        filterComplex := filterComplex + [DrawText(segText, yPosition, audioDuration)];
      }
      assert wrapped[..|wrapped|] == wrapped;
      filter := DrawTexts(filterComplex);
    }
  }

  /** Once a render has failed, later scenes change nothing. */
  lemma FailureSticks(env: Env, m: nat, n: nat)
    requires m <= n && Scenes(env, m).failed.Some?
    ensures Scenes(env, n) == Scenes(env, m)
  {
    LoopFailureSticks(m, n, VisitOf(env), env.failing);
  }

  lemma {:induction false} LoopFailureSticks(m: nat, n: nat, visit: nat -> Option<Render>, failing: set<nat>)
    requires m <= n && Loop(m, visit, failing).failed.Some?
    ensures Loop(n, visit, failing) == Loop(m, visit, failing)
  {
    if m < n {
      LoopFailureSticks(m, n - 1, visit, failing);
    }
  }

  // ---------------------------------------------------------------------------------------------
  // Captions: what is read, escaped and placed

  /** The subtitles are read one for one, in order, and no line break is left in them. */
  lemma {:induction false} SubtitleTextsAt(subs: seq<string>)
    ensures forall k :: 0 <= k < |subs| ==>
      SubtitleTexts(subs)[k] == ReplaceChar(subs[k], '\n', " ") && '\n' !in SubtitleTexts(subs)[k]
  {
    if subs != [] {
      SubtitleTextsAt(subs[1..]);
      ReplaceCharRemoves(subs[0], '\n', " ");
      forall k | 0 < k < |subs|
        ensures SubtitleTexts(subs)[k] == SubtitleTexts(subs[1..])[k - 1]
      {
      }
    }
  }

  /** The chain of two `replace` calls escapes each character on its own. */
  lemma {:induction false} EscapeIsEach(s: string)
    ensures Escape(s) == EscapeEach(s)
  {
    if s != [] {
      EscapeIsEach(s[1..]);
      var head := if s[0] == '\'' then QuoteEscape else [s[0]];
      var tail := ReplaceChar(s[1..], '\'', QuoteEscape);
      assert ReplaceChar(s, '\'', QuoteEscape) == head + tail;
      ReplaceCharAppend(head, tail, ':', ColonEscape);
      if s[0] == '\'' {
        ReplaceCharAbsent(QuoteEscape, ':', ColonEscape);
      } else {
        assert ReplaceChar(head, ':', ColonEscape) == EscapeChar(s[0]) + ReplaceChar([], ':', ColonEscape);
      }
    }
  }

  /** An escaped text never starts with a colon: a colon is always preceded by its backslash. */
  lemma EscapeEachHead(s: string)
    requires s != []
    ensures EscapeEach(s) != [] && EscapeEach(s)[0] != ':'
  {
    assert EscapeEach(s) == EscapeChar(s[0]) + EscapeEach(s[1..]);
  }

  /** Reading an escaped text back gives the original: the escaping loses nothing, so different
      caption lines give different drawtext texts. */
  lemma {:induction false} UnescapeEscape(s: string)
    ensures Unescape(Escape(s)) == s
  {
    UnescapeEach(s);
    EscapeIsEach(s);
  }

  /** Distinct caption lines give distinct drawtext texts. */
  lemma EscapeInjective(a: string, b: string)
    requires a != b
    ensures Escape(a) != Escape(b)
  {
    UnescapeEscape(a);
    UnescapeEscape(b);
  }

  lemma {:induction false} UnescapeEach(s: string)
    ensures Unescape(EscapeEach(s)) == s
  {
    if s != [] {
      var c, rest := s[0], EscapeEach(s[1..]);
      assert EscapeEach(s) == EscapeChar(c) + rest;
      UnescapeEach(s[1..]);
      if c == '\'' {
        UnescapeQuote(rest);
      } else if c == ':' {
        UnescapeColon(rest);
      } else {
        if s[1..] != [] {
          EscapeEachHead(s[1..]);
        }
        UnescapeOther(c, rest);
      }
      assert s == [c] + s[1..];
    }
  }

  lemma UnescapeQuote(rest: string)
    ensures Unescape(QuoteEscape + rest) == "'" + Unescape(rest)
  {
    var e := QuoteEscape + rest;
    assert e[..4] == QuoteEscape && e[4..] == rest;
  }

  lemma UnescapeColon(rest: string)
    ensures Unescape(ColonEscape + rest) == ":" + Unescape(rest)
  {
    var e := ColonEscape + rest;
    assert e[..2] == ColonEscape && e[2..] == rest;
    assert QuoteEscape[0] == '\'';
    assert |e| >= 4 ==> e[..4][0] == '\\';
  }

  /** Any other character is read as itself, unless it is a backslash before a colon. */
  lemma UnescapeOther(c: char, rest: string)
    requires c != '\'' && c != ':' && (rest == [] || rest[0] != ':')
    ensures Unescape([c] + rest) == [c] + Unescape(rest)
  {
    var e := [c] + rest;
    assert e[0] == c && e[1..] == rest;
    assert QuoteEscape[0] == '\'' && ColonEscape[1] == ':';
    assert |e| >= 4 ==> e[..4][0] == c;
    assert |e| >= 2 ==> e[..2][1] == rest[0];
  }

  /** A line holding neither `'` nor `:` is passed through unchanged. */
  lemma EscapePlain(s: string)
    requires '\'' !in s && ':' !in s
    ensures Escape(s) == s
  {
    ReplaceCharAbsent(s, '\'', QuoteEscape);
    ReplaceCharAbsent(s, ':', ColonEscape);
  }

  /** The drawtext filters of a block: one per line, in order, each line escaped, at the offsets
      of the lines of a block that starts at `start`. */
  lemma {:induction false} DrawsAt(lines: seq<string>, start: int, until: real)
    ensures forall k :: 0 <= k < |lines| ==>
      Draws(lines, start, until)[k] == DrawText(Escape(lines[k]), LineOffsets(start, |lines|, FontSize, LineSpacing)[k], until)
  {
    if lines != [] {
      var n := |lines| - 1;
      DrawsAt(lines[..n], start, until);
      forall k | 0 <= k < n
        ensures Draws(lines, start, until)[k] == Draws(lines[..n], start, until)[k]
      {
      }
    }
  }

  /** The caption filter is `null` exactly when the caption has no words. Otherwise there is one
      drawtext per wrapped line, in order; each reads back as its line; the lines are one line
      height plus spacing apart, the block ends 90 pixels above the bottom edge, and each is shown
      for the whole scene. */
  lemma CaptionFilterShape(text: string, duration: real)
    ensures CaptionFilter(text, duration) == NullFilter <==> Split(text) == []
    ensures CaptionFilter(text, duration).DrawTexts? ==>
      var lines := Wrap(text, CaptionMaxWidth, FontSize);
      var ds := CaptionFilter(text, duration).draws;
      var start := VideoHeight - SubtitleMargin - SubtitleBottomGap - BlockHeight(|lines|, FontSize, LineSpacing);
      && |ds| == |lines| > 0
      && (forall k :: 0 <= k < |ds| ==>
            Unescape(ds[k].text) == lines[k] && ds[k].y == start + (FontSize + LineSpacing) * k && ds[k].until == duration)
      && ds[|ds| - 1].y + FontSize == VideoHeight - SubtitleMargin - SubtitleBottomGap
  {
    var lines := Wrap(text, CaptionMaxWidth, FontSize);
    WrapLinesNonEmpty(text, CaptionMaxWidth, FontSize);
    if lines != [] {
      var n := |lines|;
      var start := VideoHeight - SubtitleMargin - SubtitleBottomGap - BlockHeight(n, FontSize, LineSpacing);
      assert VerticalPosition(n, FontSize, LineSpacing, VideoHeight, Alignment) == Success(start);
      var ds := Draws(lines, start, duration);
      DrawsAt(lines, start, duration);
      LineOffsetsSpanBlock(start, n, FontSize, LineSpacing);
      forall k | 0 <= k < n
        ensures Unescape(ds[k].text) == lines[k]
      {
        UnescapeEscape(lines[k]);
      }
    }
  }

  /** A one-line caption sits at y = 1920 - 50 - 90 = 1780, with its colon escaped. */
  lemma CaptionExample()
    ensures CaptionFilter("5:30", 4.0) == DrawTexts([DrawText("5\\:30", 1780, 4.0)])
  {
    WrapOneWordExample();
    EscapeColonExample();
    assert VerticalPosition(1, FontSize, LineSpacing, VideoHeight, Alignment) == Success(1780);
    assert Draws(["5:30"], 1780, 4.0) == [DrawText(Escape("5:30"), 1780, 4.0)] by {
      assert ["5:30"][..0] == [];
    }
  }

  /** A single short word is a single line. */
  lemma WrapOneWordExample()
    ensures Wrap("5:30", CaptionMaxWidth, FontSize) == ["5:30"]
  {
    SplitSingleWord("5:30");
    assert Pack(["5:30"][..0], EffectiveWidth(CaptionMaxWidth), FontSize) == Packing([], [], 0.0);
    assert Pack(["5:30"], EffectiveWidth(CaptionMaxWidth), FontSize) == Packing([], [] + ["5:30"], 135.0);
    assert JoinEach([["5:30"]]) == [JoinWords(["5:30"])];
  }

  /** `5:30` is written `5\\:30` in the filter. */
  lemma EscapeColonExample()
    ensures Escape("5:30") == "5\\:30"
  {
    assert "5:30" == "5" + ":" + "30";
    EscapeAppend("5" + ":", "30");
    EscapeAppend("5", ":");
    EscapePlain("5");
    EscapeSingle(':');
    EscapePlain("30");
  }

  /** `it's` is written `it'\''s` in the filter. */
  lemma EscapeExample()
    ensures Escape("it's") == "it'\\''s"
  {
    assert "it's" == "it" + "'" + "s";
    EscapeAppend("it" + "'", "s");
    EscapeAppend("it", "'");
    EscapePlain("it");
    EscapeSingle('\'');
    EscapePlain("s");
  }

  /** Escaping works piece by piece. */
  lemma EscapeAppend(a: string, b: string)
    ensures Escape(a + b) == Escape(a) + Escape(b)
  {
    ReplaceCharAppend(a, b, '\'', QuoteEscape);
    ReplaceCharAppend(ReplaceChar(a, '\'', QuoteEscape), ReplaceChar(b, '\'', QuoteEscape), ':', ColonEscape);
  }

  lemma EscapeSingle(c: char)
    ensures Escape([c]) == EscapeChar(c)
  {
    EscapeIsEach([c]);
    assert [c][1..] == [];
  }

  // ---------------------------------------------------------------------------------------------
  // Scenes: which are rendered, in what order, and what the manifest says

  /** The scenes among 1..n that `visit` attempts, in ascending order. */
  function Attempted(n: nat, visit: nat -> Option<Render>): seq<nat> {
    if n == 0 then [] else Attempted(n - 1, visit) + (if visit(n).Some? then [n] else [])
  }

  /** The eligible scenes among 1..n, in ascending order. */
  function Selected(env: Env, n: nat): seq<nat> {
    Attempted(n, VisitOf(env))
  }

  /** The scene numbers of a sequence of renders. */
  function SceneNumbers(renders: seq<Render>): (ns: seq<nat>)
    ensures |ns| == |renders|
  {
    if renders == [] then [] else SceneNumbers(renders[..|renders| - 1]) + [renders[|renders| - 1].scene]
  }

  lemma {:induction false} AttemptedMembers(n: nat, visit: nat -> Option<Render>)
    ensures forall i :: i in Attempted(n, visit) <==> 1 <= i <= n && visit(i).Some?
    ensures forall a, b :: 0 <= a < b < |Attempted(n, visit)| ==> Attempted(n, visit)[a] < Attempted(n, visit)[b]
  {
    if n > 0 {
      AttemptedMembers(n - 1, visit);
      var prev := Attempted(n - 1, visit);
      if visit(n).Some? {
        var cur := prev + [n];
        assert Attempted(n, visit) == cur;
        forall a, b | 0 <= a < b < |cur|
          ensures cur[a] < cur[b]
        {
          if b == |prev| {
            assert cur[a] == prev[a] && prev[a] in prev;
          } else {
            assert cur[a] == prev[a] && cur[b] == prev[b];
          }
        }
      } else {
        assert Attempted(n, visit) == prev;
      }
    }
  }

  /** The selected scenes are exactly the eligible ones among 1..n, strictly ascending. */
  lemma SelectedMembers(env: Env, n: nat)
    ensures forall i :: i in Selected(env, n) <==> 1 <= i <= n && Eligible(env, i)
    ensures forall a, b :: 0 <= a < b < |Selected(env, n)| ==> Selected(env, n)[a] < Selected(env, n)[b]
  {
    AttemptedMembers(n, VisitOf(env));
    forall i
      ensures VisitOf(env)(i).Some? <==> i >= 1 && Eligible(env, i)
    {
    }
  }

  /** While no render has failed, the loop has rendered exactly the attempted scenes, in order,
      and none of them fails. */
  lemma {:induction false} LoopComplete(n: nat, visit: nat -> Option<Render>, failing: set<nat>)
    requires forall i :: visit(i).Some? ==> visit(i).value.scene == i
    ensures var p := Loop(n, visit, failing);
      p.failed.None? ==>
        SceneNumbers(p.renders) == Attempted(n, visit) && forall j :: j in Attempted(n, visit) ==> j !in failing
  {
    if n > 0 {
      LoopComplete(n - 1, visit, failing);
      var p := Loop(n - 1, visit, failing);
      if p.failed.None? && visit(n).Some? && n !in failing {
        var rs := p.renders + [visit(n).value];
        assert Loop(n, visit, failing) == Progress(rs, None);
        assert rs[..|p.renders|] == p.renders;
        assert SceneNumbers(rs) == SceneNumbers(p.renders) + [n];
        assert Attempted(n, visit) == Attempted(n - 1, visit) + [n];
      }
    }
  }

  /** A failure at scene f stops the loop: f is attempted and fails, and the renders are those
      of the scenes attempted before f, none of which fails. */
  lemma {:induction false} LoopFailure(n: nat, visit: nat -> Option<Render>, failing: set<nat>)
    requires forall i :: visit(i).Some? ==> visit(i).value.scene == i
    ensures var p := Loop(n, visit, failing);
      p.failed.Some? ==>
        var f := p.failed.value;
        && 1 <= f <= n && visit(f).Some? && f in failing
        && SceneNumbers(p.renders) == Attempted(f - 1, visit)
        && forall j :: j in Attempted(f - 1, visit) ==> j !in failing
  {
    if n > 0 {
      var p := Loop(n - 1, visit, failing);
      if p.failed.Some? {
        LoopFailure(n - 1, visit, failing);
      } else {
        LoopComplete(n - 1, visit, failing);
      }
    }
  }

  /** Each of `renders` is the render of a scene among 1..n that `visit` attempts. */
  predicate AttemptsUpTo(renders: seq<Render>, n: nat, visit: nat -> Option<Render>) {
    forall k :: 0 <= k < |renders| ==> 1 <= renders[k].scene <= n && visit(renders[k].scene) == Some(renders[k])
  }

  /** Every render of the loop over 1..n is the render a scene among 1..n attempts. */
  lemma {:induction false} LoopRenders(n: nat, visit: nat -> Option<Render>, failing: set<nat>)
    requires forall i :: visit(i).Some? ==> visit(i).value.scene == i
    ensures AttemptsUpTo(Loop(n, visit, failing).renders, n, visit)
  {
    if n > 0 {
      LoopRenders(n - 1, visit, failing);
      var p := Loop(n - 1, visit, failing);
      assert AttemptsUpTo(p.renders, n - 1, visit);
      if p.failed.None? && visit(n).Some? && n !in failing {
        var rs := p.renders + [visit(n).value];
        assert Loop(n, visit, failing) == Progress(rs, None);
        forall k | 0 <= k < |rs|
          ensures 1 <= rs[k].scene <= n && visit(rs[k].scene) == Some(rs[k])
        {
          if k < |p.renders| {
            assert rs[k] == p.renders[k];
          } else {
            assert rs[k] == visit(n).value && visit(n).value.scene == n;
          }
        }
      }
    }
  }

  /** The driver's scenes attempt renders of themselves. */
  lemma VisitScene(env: Env)
    ensures forall i :: VisitOf(env)(i).Some? ==> VisitOf(env)(i).value.scene == i
  {
    forall i | VisitOf(env)(i).Some?
      ensures VisitOf(env)(i).value.scene == i
    {
      assert VisitOf(env)(i) == Visit(env, i);
    }
  }

  /** Every render of the driver's loop over 1..n is the render of an eligible scene among
      1..n, as that scene calls for. */
  lemma ScenesRenders(env: Env, n: nat)
    ensures var p := Scenes(env, n);
      forall k :: 0 <= k < |p.renders| ==>
        1 <= p.renders[k].scene <= n && Visit(env, p.renders[k].scene) == Some(p.renders[k])
  {
    var p := Scenes(env, n);
    VisitScene(env);
    LoopRenders(n, VisitOf(env), env.failing);
    assert AttemptsUpTo(p.renders, n, VisitOf(env));
    forall k | 0 <= k < |p.renders|
      ensures 1 <= p.renders[k].scene <= n && Visit(env, p.renders[k].scene) == Some(p.renders[k])
    {
      assert VisitOf(env)(p.renders[k].scene) == Visit(env, p.renders[k].scene);
    }
  }

  /** With no failure the driver's renders are those of the eligible scenes, in ascending order,
      and none of them fails. */
  lemma ScenesComplete(env: Env, n: nat)
    ensures var p := Scenes(env, n);
      p.failed.None? ==>
        SceneNumbers(p.renders) == Selected(env, n) && forall j :: j in Selected(env, n) ==> j !in env.failing
  {
    VisitScene(env);
    LoopComplete(n, VisitOf(env), env.failing);
  }

  /** A failure at scene f stops the driver's loop after the eligible scenes before f, f being the
      first eligible scene whose render fails. */
  lemma ScenesFailure(env: Env, n: nat)
    ensures var p := Scenes(env, n);
      p.failed.Some? ==>
        var f := p.failed.value;
        && 1 <= f <= n && Eligible(env, f) && f in env.failing
        && SceneNumbers(p.renders) == Selected(env, f - 1)
        && forall j :: j in Selected(env, f - 1) ==> j !in env.failing
  {
    VisitScene(env);
    LoopFailure(n, VisitOf(env), env.failing);
    var p := Scenes(env, n);
    if p.failed.Some? {
      assert VisitOf(env)(p.failed.value) == Visit(env, p.failed.value);
    }
  }

  /** The manifest holds one `file '<path>'` line per render, in order, naming its temporary
      video. */
  lemma {:induction false} ManifestAt(renders: seq<Render>)
    ensures forall k :: 0 <= k < |renders| ==> Manifest(renders)[k] == ManifestLine(renders[k].output)
  {
    if renders != [] {
      var n := |renders| - 1;
      ManifestAt(renders[..n]);
    }
  }

  /** The manifest's text is blank exactly when nothing was rendered. */
  lemma ManifestBlank(renders: seq<Render>)
    ensures IsBlank(Flatten(Manifest(renders))) <==> renders == []
  {
    if renders != [] {
      var lines := Manifest(renders);
      ManifestAt(renders);
      assert lines[0] == ManifestLine(renders[0].output);
      assert Flatten(lines) == lines[0] + Flatten(lines[1..]);
      assert Flatten(lines)[0] == 'f';
    }
  }

  lemma {:induction false} SceneNumbersAt(renders: seq<Render>, k: nat)
    requires k < |renders|
    ensures SceneNumbers(renders)[k] == renders[k].scene
  {
    var n := |renders| - 1;
    if k < n {
      SceneNumbersAt(renders[..n], k);
    }
  }

  /** Every render of a run is a scene among 1..n, rendered as that scene calls for, and has
      its manifest line, naming its temporary video, at the same position. */
  lemma VideoRenders(env: Env)
    ensures var run := Video(env);
      && |run.manifest| == |run.renders|
      && forall k :: 0 <= k < |run.renders| ==>
           1 <= run.renders[k].scene <= SceneCount(env)
           && Visit(env, run.renders[k].scene) == Some(run.renders[k])
           && run.manifest[k] == ManifestLine(TempVideo(env, run.renders[k].scene))
  {
    var n := SceneCount(env);
    var p := Scenes(env, n);
    ManifestAt(p.renders);
    ScenesRenders(env, n);
  }

  /** How a run ends. An empty manifest (no scene among 1..n is eligible) stops the run before
      the concat; a failing render stops it at that scene; otherwise the concat is attempted and
      every eligible scene was rendered, in ascending order. */
  lemma VideoOutcome(env: Env)
    ensures var run := Video(env);
      var n := SceneCount(env);
      && (run.status == EmptyManifest <==> Selected(env, n) == [])
      && (run.status.RenderFailed? ==>
            var f := run.status.scene;
            1 <= f <= n && Eligible(env, f) && f in env.failing && SceneNumbers(run.renders) == Selected(env, f - 1))
      && (run.status == Assembled || run.status == ConcatFailed ==>
            SceneNumbers(run.renders) == Selected(env, n) != [] && (run.status == Assembled <==> env.concatSucceeds))
  {
    var n := SceneCount(env);
    var p := Scenes(env, n);
    ScenesComplete(env, n);
    ScenesFailure(env, n);
    ManifestBlank(p.renders);
    if p.failed.Some? {
      SelectedMembers(env, n);
      assert p.failed.value in Selected(env, n);
    }
  }

  /** What a rendered scene shows: its own image and audio, its audio's duration, the caption at
      its position in the subtitle list (none past the end of the list), and a fade-out that
      starts one second before the audio ends, unclamped, so before the video starts when the
      audio is shorter than a second. */
  lemma SceneRenderContents(env: Env, i: nat)
    requires i >= 1 && Eligible(env, i)
    ensures var r := SceneRender(env, i);
      var subtitles := ReadSrt(env.srt);
      && r.scene == i && r.image == PathJoin(env.outputDir, "image" + NatToString(i) + ".jpg")
      && r.audio == PathJoin(env.audioDir, "scene" + NatToString(i) + ".mp3")
      && r.duration == env.durations[r.audio]
      && (i <= |subtitles| ==> r.filter == CaptionFilter(subtitles[i - 1], r.duration))
      && (i > |subtitles| ==> r.filter == NullFilter)
      && r.fadeOutStart == r.duration - 1.0
      && (r.duration < 1.0 ==> r.fadeOutStart < 0.0)
  {
    var r := SceneRender(env, i);
    if i > |ReadSrt(env.srt)| {
      CaptionFilterShape("", r.duration);
      assert Split("") == [];
    }
  }

  /** Scenes numbered 1 and 3 give a count of two, so scene 3 is never visited: a gap in the
      numbering drops the highest-numbered scene. */
  lemma GapDropsHighest(env: Env)
    requires env.listing == ["scene1.mp3", "scene3.mp3"]
    ensures SceneCount(env) == 2
    ensures forall r :: r in Video(env).renders ==> r.scene != 3
  {
    assert env.listing[..1] == ["scene1.mp3"] && env.listing[..1][..0] == [];
    assert EndsWith("scene1.mp3", ".mp3") && EndsWith("scene3.mp3", ".mp3");
    assert CountEndingWith(env.listing[..1], ".mp3") == 1;
    var renders := Video(env).renders;
    VideoRenders(env);
    forall r | r in renders
      ensures r.scene != 3
    {
      var k :| 0 <= k < |renders| && renders[k] == r;
    }
  }
}
