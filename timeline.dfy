/**
 * The cue-building loop of `generate_audio_and_subtitle`
 * (utils/subtitles_generator.py). Speech synthesis is an oracle: for each scene,
 * in order, `generate_audio` either returns a duration (or `None`) or raises.
 * A scene whose duration is falsy (`None` or zero) yields no cue and leaves the
 * running clock where it was; any exception abandons the run before the cue file
 * is written.
 */
module SubtitleTimeline {
  import opened Wrappers
  import opened Numerals
  import opened Strings
  import opened Timecode

  datatype SceneScript = SceneScript(sceneNumber: int, text: string)

  /** What the call `generate_audio(text, scene_number)` did. */
  datatype Synthesis = Returned(duration: Option<real>) | Raised

  /** A timed caption as written to the cue file. */
  datatype Cue = Cue(index: int, start: real, end: real, text: string)

  /** A scene that receives a cue, with its duration. */
  datatype Entry = Entry(scene: SceneScript, duration: real)

  function DurationOf(t: Synthesis): Option<real> {
    if t.Returned? then t.duration else None
  }

  /** Python's truthiness of the returned duration: `None` and `0` are false. */
  predicate Emits(t: Synthesis) {
    DurationOf(t).Some? && DurationOf(t).value != 0.0
  }

  /** The running clock after the given calls: the sum of the emitted durations. */
  function Elapsed(tts: seq<Synthesis>): real {
    if tts == [] then 0.0
    else
      var last := tts[|tts| - 1];
      Elapsed(tts[..|tts| - 1]) + (if Emits(last) then DurationOf(last).value else 0.0)
  }

  /** The cues of the loop, over scenes whose calls did not raise. */
  function Timeline(scenes: seq<SceneScript>, tts: seq<Synthesis>): seq<Cue>
    requires |scenes| == |tts|
  {
    if scenes == [] then []
    else
      var n := |scenes| - 1;
      var clock := Elapsed(tts[..n]);
      Timeline(scenes[..n], tts[..n])
        + (if Emits(tts[n]) then [Cue(scenes[n].sceneNumber, clock, clock + DurationOf(tts[n]).value, scenes[n].text)] else [])
  }

  /** The four lines of a cue: its index, its time range, its text and a blank line. */
  function CueBlock(c: Cue): (block: seq<string>)
    ensures |block| == 4
  {
    [IntToString(c.index), FormatTime(c.start) + " --> " + FormatTime(c.end), c.text, ""]
  }

  /** The lines written for a sequence of items, each contributing its own block, in order. */
  function Blocks<T>(xs: seq<T>, block: T -> seq<string>): seq<string> {
    if xs == [] then [] else Blocks(xs[..|xs| - 1], block) + block(xs[|xs| - 1])
  }

  /** The lines of the cue file, before they are joined with newlines. */
  function CueLines(cues: seq<Cue>): seq<string> {
    Blocks(cues, CueBlock)
  }

  predicate AnyRaised(tts: seq<Synthesis>) {
    exists i :: 0 <= i < |tts| && tts[i].Raised?
  }

  /** The text written to the cue file, or `None` when the run was abandoned. */
  function SrtOutput(scenes: seq<SceneScript>, tts: seq<Synthesis>): Option<string>
    requires |scenes| == |tts|
  {
    if AnyRaised(tts) then None else Some(JoinWith("\n", CueLines(Timeline(scenes, tts))))
  }

  /** `generate_audio_and_subtitle`, as the source's loop; `tts[i]` is what synthesis did for
      `scenes[i]`. The result is the text written to the cue file, `None` if nothing is written. */
  method GenerateAudioAndSubtitle(scenes: seq<SceneScript>, tts: seq<Synthesis>) returns (written: Option<string>)
    requires |tts| == |scenes|
    ensures written == SrtOutput(scenes, tts)
  {
    var subtitles: seq<string> := [];
    var currentTime := 0.0;
    for i := 0 to |scenes|
      invariant forall j :: 0 <= j < i ==> !tts[j].Raised?
      invariant subtitles == CueLines(Timeline(scenes[..i], tts[..i]))
      invariant currentTime == Elapsed(tts[..i])
    {
      var sceneNumber := scenes[i].sceneNumber;
      var text := scenes[i].text;
      match tts[i] {
        case Raised =>
          assert AnyRaised(tts) by {
            assert tts[i].Raised?;
          }
          written := None;
          return;
        case Returned(duration) =>
          assert forall j :: 0 <= j < i + 1 ==> !tts[j].Raised?;
          if duration.Some? && duration.value != 0.0 {
            var startTime := currentTime;
            var endTime := currentTime + duration.value;
            var block := [IntToString(sceneNumber), FormatTime(startTime) + " --> " + FormatTime(endTime), text, ""];
            assert block == CueBlock(Cue(sceneNumber, startTime, endTime, text));
            EmittingStep(scenes, tts, i, currentTime, duration.value);
            subtitles := subtitles + block;
            assert subtitles == CueLines(Timeline(scenes[..i + 1], tts[..i + 1]));
            currentTime := endTime;
          } else {
            SilentStep(scenes, tts, i);
            assert subtitles == CueLines(Timeline(scenes[..i + 1], tts[..i + 1]));
          }
      }
    }
    assert scenes[..|scenes|] == scenes && tts[..|tts|] == tts;
    written := Some(JoinWith("\n", subtitles));
  }

  /** Appending one scene and its synthesis outcome. */
  lemma TimelineAppend(scenes: seq<SceneScript>, tts: seq<Synthesis>, s: SceneScript, t: Synthesis)
    requires |scenes| == |tts|
    ensures Timeline(scenes + [s], tts + [t]) == Timeline(scenes, tts)
      + (if Emits(t) then [Cue(s.sceneNumber, Elapsed(tts), Elapsed(tts) + DurationOf(t).value, s.text)] else [])
    ensures Elapsed(tts + [t]) == Elapsed(tts) + (if Emits(t) then DurationOf(t).value else 0.0)
  {
    assert (scenes + [s])[..|scenes|] == scenes;
    assert (tts + [t])[..|tts|] == tts;
  }

  lemma TimelineStep(scenes: seq<SceneScript>, tts: seq<Synthesis>, i: nat)
    requires |scenes| == |tts| && i < |tts|
    ensures Timeline(scenes[..i + 1], tts[..i + 1]) == Timeline(scenes[..i], tts[..i])
      + (if Emits(tts[i]) then [Cue(scenes[i].sceneNumber, Elapsed(tts[..i]), Elapsed(tts[..i]) + DurationOf(tts[i]).value, scenes[i].text)] else [])
    ensures Elapsed(tts[..i + 1]) == Elapsed(tts[..i]) + (if Emits(tts[i]) then DurationOf(tts[i]).value else 0.0)
  {
    assert scenes[..i + 1] == scenes[..i] + [scenes[i]];
    assert tts[..i + 1] == tts[..i] + [tts[i]];
    TimelineAppend(scenes[..i], tts[..i], scenes[i], tts[i]);
  }

  /** One loop step for a scene that receives a cue: its four lines are appended and the clock
      advances by the scene's duration. */
  lemma EmittingStep(scenes: seq<SceneScript>, tts: seq<Synthesis>, i: nat, clock: real, d: real)
    requires |scenes| == |tts| && i < |tts| && tts[i] == Returned(Some(d)) && d != 0.0
    requires clock == Elapsed(tts[..i])
    ensures CueLines(Timeline(scenes[..i + 1], tts[..i + 1]))
         == CueLines(Timeline(scenes[..i], tts[..i])) + CueBlock(Cue(scenes[i].sceneNumber, clock, clock + d, scenes[i].text))
    ensures Elapsed(tts[..i + 1]) == clock + d
  {
    TimelineStep(scenes, tts, i);
    assert Emits(tts[i]) && DurationOf(tts[i]).value == d;
    var cues, cue := Timeline(scenes[..i], tts[..i]), Cue(scenes[i].sceneNumber, clock, clock + d, scenes[i].text);
    assert Timeline(scenes[..i + 1], tts[..i + 1]) == cues + [cue];
    CueLinesAppend(cues, cue);
  }

  /** One loop step for a scene without a cue: nothing is appended and the clock stays. */
  lemma SilentStep(scenes: seq<SceneScript>, tts: seq<Synthesis>, i: nat)
    requires |scenes| == |tts| && i < |tts| && !Emits(tts[i])
    ensures Timeline(scenes[..i + 1], tts[..i + 1]) == Timeline(scenes[..i], tts[..i])
    ensures Elapsed(tts[..i + 1]) == Elapsed(tts[..i])
  {
    TimelineStep(scenes, tts, i);
  }

  lemma BlocksAppend<T>(xs: seq<T>, block: T -> seq<string>, x: T)
    ensures Blocks(xs + [x], block) == Blocks(xs, block) + block(x)
  {
    assert (xs + [x])[..|xs|] == xs;
  }

  lemma CueLinesAppend(cues: seq<Cue>, c: Cue)
    ensures CueLines(cues + [c]) == CueLines(cues) + CueBlock(c)
  {
    BlocksAppend(cues, CueBlock, c);
  }

  // ---------------------------------------------------------------------------------------------
  // The reference: which scenes get cues, and when

  /** The scenes that receive a cue, in input order, with their durations. */
  function Emitted(scenes: seq<SceneScript>, tts: seq<Synthesis>): seq<Entry>
    requires |scenes| == |tts|
  {
    if scenes == [] then []
    else
      var n := |scenes| - 1;
      Emitted(scenes[..n], tts[..n]) + (if Emits(tts[n]) then [Entry(scenes[n], DurationOf(tts[n]).value)] else [])
  }

  function Sum(entries: seq<Entry>): real {
    if entries == [] then 0.0 else Sum(entries[..|entries| - 1]) + entries[|entries| - 1].duration
  }

  /** The k-th cue belongs to the k-th scene that emitted, carries that scene's number (not a
      running count) and text, starts at the sum of the earlier emitted durations and lasts its
      own duration. */
  lemma {:induction false} TimelineMatchesEmitted(scenes: seq<SceneScript>, tts: seq<Synthesis>)
    requires |scenes| == |tts|
    ensures var cues, es := Timeline(scenes, tts), Emitted(scenes, tts);
      && |cues| == |es|
      && Elapsed(tts) == Sum(es)
      && forall k :: 0 <= k < |cues| ==>
           && cues[k].index == es[k].scene.sceneNumber
           && cues[k].text == es[k].scene.text
           && cues[k].start == Sum(es[..k])
           && cues[k].end == cues[k].start + es[k].duration
  {
    if scenes != [] {
      var n := |scenes| - 1;
      TimelineMatchesEmitted(scenes[..n], tts[..n]);
      var es := Emitted(scenes, tts);
      var es0 := Emitted(scenes[..n], tts[..n]);
      assert es[..|es0|] == es0;
      forall k | 0 <= k < |es0|
        ensures es[..k] == es0[..k]
      {
      }
    }
  }

  /** The first cue starts at 0, each cue starts where the previous one ended, and the last
      one ends at the clock's final value. */
  lemma TimelineContiguous(scenes: seq<SceneScript>, tts: seq<Synthesis>)
    requires |scenes| == |tts|
    ensures var cues := Timeline(scenes, tts);
      && (cues != [] ==> cues[0].start == 0.0 && cues[|cues| - 1].end == Elapsed(tts))
      && forall k :: 0 < k < |cues| ==> cues[k].start == cues[k - 1].end
  {
    var cues, es := Timeline(scenes, tts), Emitted(scenes, tts);
    TimelineMatchesEmitted(scenes, tts);
    if cues != [] {
      CuesStartAtZero(cues, es);
    }
    CuesFollowOn(cues, es);
  }

  /** The running sums of the entries' durations, as the cues' starts and ends. */
  ghost predicate AtSums(cues: seq<Cue>, es: seq<Entry>) {
    && |cues| == |es|
    && forall k :: 0 <= k < |cues| ==>
         cues[k].start == Sum(es[..k]) && cues[k].end == cues[k].start + es[k].duration
  }

  /** Cues placed at the running sums start at 0 and end at the total. */
  lemma CuesStartAtZero(cues: seq<Cue>, es: seq<Entry>)
    requires AtSums(cues, es) && cues != []
    ensures cues[0].start == 0.0 && cues[|cues| - 1].end == Sum(es)
  {
    assert es[..0] == [];
    SumStep(es, |es|);
    assert es[..|es|] == es;
  }

  /** Cues placed at the running sums follow one another. */
  lemma CuesFollowOn(cues: seq<Cue>, es: seq<Entry>)
    requires AtSums(cues, es)
    ensures forall k :: 0 < k < |cues| ==> cues[k].start == cues[k - 1].end
  {
    forall k | 0 < k < |cues|
      ensures cues[k].start == cues[k - 1].end
    {
      SumStep(es, k);
    }
  }

  /** The sum over a prefix grows by the prefix's last duration. */
  lemma SumStep(es: seq<Entry>, k: nat)
    requires 0 < k <= |es|
    ensures Sum(es[..k]) == Sum(es[..k - 1]) + es[k - 1].duration
  {
    assert es[..k][..k - 1] == es[..k - 1];
  }

  /** With non-negative durations every cue has positive length and the clock never goes
      back: starts strictly increase. */
  lemma TimelineIncreasing(scenes: seq<SceneScript>, tts: seq<Synthesis>)
    requires |scenes| == |tts|
    requires forall i :: 0 <= i < |tts| && DurationOf(tts[i]).Some? ==> DurationOf(tts[i]).value >= 0.0
    ensures var cues := Timeline(scenes, tts);
      && (forall k :: 0 <= k < |cues| ==> cues[k].start < cues[k].end)
      && (forall j, k :: 0 <= j < k < |cues| ==> cues[j].start < cues[k].start)
  {
    var cues := Timeline(scenes, tts);
    TimelinePositive(scenes, tts);
    TimelineContiguous(scenes, tts);
    forall j, k | 0 <= j < k < |cues|
      ensures cues[j].start < cues[k].start
    {
      var i := j;
      while i < k
        invariant j <= i <= k
        invariant cues[j].start < cues[i].start || i == j
      {
        i := i + 1;
      }
    }
  }

  lemma {:induction false} TimelinePositive(scenes: seq<SceneScript>, tts: seq<Synthesis>)
    requires |scenes| == |tts|
    requires forall i :: 0 <= i < |tts| && DurationOf(tts[i]).Some? ==> DurationOf(tts[i]).value >= 0.0
    ensures var cues := Timeline(scenes, tts);
      forall k :: 0 <= k < |cues| ==> cues[k].start < cues[k].end
  {
    if scenes != [] {
      var n := |scenes| - 1;
      TimelinePositive(scenes[..n], tts[..n]);
      TimelineAppend(scenes[..n], tts[..n], scenes[n], tts[n]);
      assert scenes == scenes[..n] + [scenes[n]] && tts == tts[..n] + [tts[n]];
    }
  }

  /** A scene whose duration is falsy adds no cue and does not move the clock. */
  lemma SkippedScene(scenes: seq<SceneScript>, tts: seq<Synthesis>, s: SceneScript, t: Synthesis)
    requires |scenes| == |tts| && !Emits(t)
    ensures Timeline(scenes + [s], tts + [t]) == Timeline(scenes, tts)
    ensures Elapsed(tts + [t]) == Elapsed(tts)
  {
    assert (scenes + [s])[..|scenes|] == scenes;
    assert (tts + [t])[..|tts|] == tts;
  }

  /** With four lines per item, the lines of item `k` are lines `4k` to `4k + 3`. */
  lemma {:induction false} BlocksAt<T>(xs: seq<T>, block: T -> seq<string>, k: nat)
    requires forall x :: |block(x)| == 4
    requires k < |xs|
    ensures |Blocks(xs, block)| == 4 * |xs|
    ensures Blocks(xs, block)[4 * k..4 * k + 4] == block(xs[k])
  {
    var n := |xs| - 1;
    var front, back := Blocks(xs[..n], block), block(xs[n]);
    assert Blocks(xs, block) == front + back;
    if k < n {
      BlocksAt(xs[..n], block, k);
      SliceOfFront(front, back, 4 * k, 4 * k + 4);
      assert xs[..n][k] == xs[k];
    } else {
      assert k == n;
      BlocksLength(xs[..n], block);
      SliceOfBack(front, back);
    }
  }

  lemma {:induction false} BlocksLength<T>(xs: seq<T>, block: T -> seq<string>)
    requires forall x :: |block(x)| == 4
    ensures |Blocks(xs, block)| == 4 * |xs|
  {
    if xs != [] {
      BlocksLength(xs[..|xs| - 1], block);
    }
  }

  lemma SliceOfFront<T>(a: seq<T>, b: seq<T>, i: nat, j: nat)
    requires i <= j <= |a|
    ensures (a + b)[i..j] == a[i..j]
  {
  }

  lemma SliceOfBack<T>(a: seq<T>, b: seq<T>)
    ensures (a + b)[|a|..|a| + |b|] == b
  {
  }

  /** Each cue contributes exactly four lines, in cue order: lines `4k` to `4k + 3` are the
      k-th cue's index, its time range, its text and a blank line. */
  lemma CueLinesAt(cues: seq<Cue>, k: nat)
    requires k < |cues|
    ensures |CueLines(cues)| == 4 * |cues|
    ensures CueLines(cues)[4 * k..4 * k + 4] == CueBlock(cues[k])
  {
    BlocksAt(cues, CueBlock, k);
  }

  /** An exception during any scene abandons the run: no cue text is written. */
  lemma RaiseWritesNothing(scenes: seq<SceneScript>, tts: seq<Synthesis>, i: nat)
    requires |scenes| == |tts| && i < |tts| && tts[i].Raised?
    ensures SrtOutput(scenes, tts) == None
  {
  }

  /** The timeline of a single scene. */
  lemma FirstCue(s: SceneScript, t: Synthesis)
    ensures Timeline([s], [t]) == (if Emits(t) then [Cue(s.sceneNumber, 0.0, DurationOf(t).value, s.text)] else [])
    ensures Elapsed([t]) == (if Emits(t) then DurationOf(t).value else 0.0)
  {
    TimelineAppend([], [], s, t);
    assert [] + [s] == [s] && [] + [t] == [t];
  }

  /** Appending a scene to a run whose cues and clock are known. */
  lemma NextCue(scenes: seq<SceneScript>, tts: seq<Synthesis>, s: SceneScript, t: Synthesis,
                cues: seq<Cue>, clock: real)
    requires |scenes| == |tts| && Timeline(scenes, tts) == cues && Elapsed(tts) == clock
    ensures Timeline(scenes + [s], tts + [t])
      == cues + (if Emits(t) then [Cue(s.sceneNumber, clock, clock + DurationOf(t).value, s.text)] else [])
    ensures Elapsed(tts + [t]) == clock + (if Emits(t) then DurationOf(t).value else 0.0)
  {
    TimelineAppend(scenes, tts, s, t);
  }

  /** Scenes 1 and 2 narrated for 3.2 and 4.8 seconds get the cues 0 to 3.2 and 3.2 to 8.0
      seconds (written `00:00:00,000 --> 00:00:03,200` and `00:00:03,200 --> 00:00:08,000`,
      as `Timecode.FormatZero`, `Timecode.FormatFraction` and `Timecode.FormatWhole` show). */
  lemma TwoSceneExample(a: string, b: string)
    ensures Timeline([SceneScript(1, a), SceneScript(2, b)], [Returned(Some(3.2)), Returned(Some(4.8))])
      == [Cue(1, 0.0, 3.2, a), Cue(2, 3.2, 8.0, b)]
  {
    var s1, s2 := SceneScript(1, a), SceneScript(2, b);
    var t1, t2 := Returned(Some(3.2)), Returned(Some(4.8));
    var c1 := Cue(1, 0.0, 3.2, a);
    FirstCue(s1, t1);
    NextCue([s1], [t1], s2, t2, [c1], 3.2);
    assert [s1] + [s2] == [s1, s2] && [t1] + [t2] == [t1, t2];
  }

  /** A scene without audio leaves a gap in the cue numbers: the written index is the scene
      number, so scenes 1 and 3 are numbered 1 and 3. */
  lemma GapKeepsSceneNumbers(a: string, b: string, c: string)
    ensures Timeline([SceneScript(1, a), SceneScript(2, b), SceneScript(3, c)],
                     [Returned(Some(2.0)), Returned(None), Returned(Some(1.5))])
      == [Cue(1, 0.0, 2.0, a), Cue(3, 2.0, 3.5, c)]
  {
    var s1, s2, s3 := SceneScript(1, a), SceneScript(2, b), SceneScript(3, c);
    var t1, t2, t3 := Returned(Some(2.0)), Returned(None), Returned(Some(1.5));
    var c1 := Cue(1, 0.0, 2.0, a);
    FirstCue(s1, t1);
    NextCue([s1], [t1], s2, t2, [c1], 2.0);
    assert [s1] + [s2] == [s1, s2] && [t1] + [t2] == [t1, t2];
    NextCue([s1, s2], [t1, t2], s3, t3, [c1], 2.0);
    assert [s1, s2] + [s3] == [s1, s2, s3] && [t1, t2] + [t3] == [t1, t2, t3];
  }
}
