/**
 * Naming and skipping in `preprocess_images` (utils/video_generator.py): the
 * directory listing is sorted, every name ending in `.jpg`, `.jpeg` or `.png`
 * takes the next number k and is converted to `image{k}.jpg` in the output
 * directory, unless that file already exists. The conversion itself is
 * `preprocess_image_if_needed`, whose geometry is module Letterbox; nothing
 * catches an exception it raises, so the first failing conversion ends the run.
 */
module Frames {
  import opened Strings
  import opened Numerals
  import opened Paths
  import opened Wrappers
  import Letterbox

  // ---------------------------------------------------------------------------------------------
  // Python's ordering of strings and `sorted`

  /** Python's `a <= b` on strings: code point by code point, a proper prefix first. */
  predicate LexLe(a: string, b: string) {
    a == [] || (b != [] && (a[0] < b[0] || (a[0] == b[0] && LexLe(a[1..], b[1..]))))
  }

  lemma {:induction false} LexLeTotal(a: string, b: string)
    ensures LexLe(a, b) || LexLe(b, a)
  {
    if a != [] && b != [] && a[0] == b[0] {
      LexLeTotal(a[1..], b[1..]);
    }
  }

  predicate SortedNames(xs: seq<string>) {
    forall i :: 0 < i < |xs| ==> LexLe(xs[i - 1], xs[i])
  }

  function Insert(x: string, xs: seq<string>): (r: seq<string>)
    requires SortedNames(xs)
    ensures SortedNames(r) && multiset(r) == multiset(xs) + multiset{x}
    ensures xs != [] ==> r[0] == x || r[0] == xs[0]
    ensures xs == [] ==> r == [x]
  {
    if xs == [] then [x]
    else if LexLe(x, xs[0]) then [x] + xs
    else
      LexLeTotal(x, xs[0]);
      assert xs == [xs[0]] + xs[1..];
      [xs[0]] + Insert(x, xs[1..])
  }

  /** Python's `sorted(names)`. */
  function Sort(names: seq<string>): (r: seq<string>)
    ensures SortedNames(r) && multiset(r) == multiset(names)
  {
    if names == [] then []
    else
      assert names == names[..|names| - 1] + [names[|names| - 1]];
      Insert(names[|names| - 1], Sort(names[..|names| - 1]))
  }

  /** Lexicographic order puts `image10.png` before `image2.png`. */
  lemma TenSortsBeforeTwo()
    ensures LexLe("image10.png", "image2.png") && !LexLe("image2.png", "image10.png")
  {
    assert "image10.png"[5..] == "10.png";
    assert "image2.png"[5..] == "2.png";
    assert "image10.png"[1..][1..][1..][1..][1..] == "10.png";
    assert "image2.png"[1..][1..][1..][1..][1..] == "2.png";
  }

  // ---------------------------------------------------------------------------------------------
  // The frame plan

  /** The `endswith((".jpg", ".jpeg", ".png"))` test (case-sensitive). */
  predicate IsImageName(name: string) {
    EndsWith(name, ".jpg") || EndsWith(name, ".jpeg") || EndsWith(name, ".png")
  }

  /** The names that are counted, in listing order. */
  function ImageNames(names: seq<string>): (r: seq<string>)
    ensures |r| <= |names|
  {
    if names == [] then []
    else ImageNames(names[..|names| - 1]) + (if IsImageName(names[|names| - 1]) then [names[|names| - 1]] else [])
  }

  /** The name of the k-th frame. */
  function FrameName(k: nat): string {
    "image" + NatToString(k) + ".jpg"
  }

  /** One counted source image: where it is read from and the frame it becomes. */
  datatype Frame = Frame(source: string, target: string)

  /** The frames the loop assigns, counting from 1, over `names` in the given order. */
  function Plan(inputDir: string, outputDir: string, names: seq<string>): seq<Frame> {
    if names == [] then []
    else
      var init := names[..|names| - 1];
      var name := names[|names| - 1];
      Plan(inputDir, outputDir, init)
        + (if IsImageName(name)
           then [Frame(PathJoin(inputDir, name), PathJoin(outputDir, FrameName(|ImageNames(init)| + 1)))]
           else [])
  }

  /** The frames whose output is not already present: those that are converted. */
  function Pending(plan: seq<Frame>, existing: set<string>): seq<Frame> {
    if plan == [] then []
    else
      Pending(plan[..|plan| - 1], existing)
        + (if plan[|plan| - 1].target !in existing then [plan[|plan| - 1]] else [])
  }

  function Targets(frames: seq<Frame>): set<string> {
    set f | f in frames :: f.target
  }

  // ---------------------------------------------------------------------------------------------
  // The conversions

  /** Why `preprocess_image_if_needed` raised: `Image.open` could not read the file, a zero
      dimension made `target / width` divide by zero, or a scaled side truncated to zero pixels,
      which `img.resize` refuses. */
  datatype ConversionError = CannotOpen | ZeroSize | EmptyResize

  /** One conversion that was carried out: the frame and the letterbox geometry it was pasted with. */
  datatype Conversion = Conversion(frame: Frame, geometry: Letterbox.Geometry)

  /** The conversions carried out, in order, and the frame whose conversion raised, if any. */
  datatype ConversionRun = ConversionRun(done: seq<Conversion>, failed: Option<Frame>)

  /** `preprocess_image_if_needed(f.source, f.target)`, where `sizes` maps the paths `Image.open`
      can read to the size it reports. */
  function Convert(f: Frame, sizes: map<string, (nat, nat)>): Result<Letterbox.Geometry, ConversionError> {
    if f.source !in sizes then Failure(CannotOpen)
    else
      match Letterbox.Fit(sizes[f.source].0, sizes[f.source].1)
      case Success(g) => if g.width == 0 || g.height == 0 then Failure(EmptyResize) else Success(g)
      case Failure(_) => Failure(ZeroSize)
  }

  function ConvertOf(sizes: map<string, (nat, nat)>): Frame -> Result<Letterbox.Geometry, ConversionError> {
    (f: Frame) => Convert(f, sizes)
  }

  /** The frames converted one after the other, each by `convert`, until a conversion raises. */
  function Conversions(frames: seq<Frame>, convert: Frame -> Result<Letterbox.Geometry, ConversionError>): ConversionRun {
    if frames == [] then ConversionRun([], None)
    else
      var r := Conversions(frames[..|frames| - 1], convert);
      var f := frames[|frames| - 1];
      if r.failed.Some? then r
      else
        match convert(f)
        case Success(g) => ConversionRun(r.done + [Conversion(f, g)], None)
        case Failure(_) => ConversionRun(r.done, Some(f))
  }

  /** `preprocess_images` over a listing of the input directory: the conversions it carries out
      (`preprocess_image_if_needed(source, target)`), in order, and the frame whose conversion
      raised and so ended the loop. */
  method PreprocessImages(inputDir: string, outputDir: string, listing: seq<string>, existing: set<string>,
                          sizes: map<string, (nat, nat)>)
    returns (run: ConversionRun)
    ensures run == Conversions(Pending(Plan(inputDir, outputDir, Sort(listing)), existing), ConvertOf(sizes))
  {
    var names := Sort(listing);
    var done := [];
    ghost var pending := [];
    var imageCount := 1;
    for i := 0 to |names|
      invariant imageCount == |ImageNames(names[..i])| + 1
      invariant pending == Pending(Plan(inputDir, outputDir, names[..i]), existing)
      invariant Conversions(pending, ConvertOf(sizes)) == ConversionRun(done, None)
    {
      var filename := names[i];
      ghost var plan := Plan(inputDir, outputDir, names[..i]);
      PlanStep(inputDir, outputDir, names, i);
      if EndsWith(filename, ".jpg") || EndsWith(filename, ".jpeg") || EndsWith(filename, ".png") {
        var inputPath := PathJoin(inputDir, filename);
        var outputPath := PathJoin(outputDir, "image" + NatToString(imageCount) + ".jpg");
        var frame := Frame(inputPath, outputPath);
        assert Plan(inputDir, outputDir, names[..i + 1]) == plan + [frame];
        PendingStep(plan, frame, existing);
        if outputPath !in existing {
          var result := Convert(frame, sizes);
          ConversionStep(pending, frame, ConvertOf(sizes), done);
          pending := pending + [frame];
          if result.Failure? {
            run := ConversionRun(done, Some(frame));
            RunEndsAt(inputDir, outputDir, names, i + 1, existing, ConvertOf(sizes));
            return;
          }
          done := done + [Conversion(frame, result.value)];
        }
        imageCount := imageCount + 1;
      } else {
        assert Plan(inputDir, outputDir, names[..i + 1]) == plan;
      }
    }
    assert names[..|names|] == names;
    run := ConversionRun(done, None);
  }

  /** One conversion after a run of successful ones. */
  lemma ConversionStep(frames: seq<Frame>, f: Frame, convert: Frame -> Result<Letterbox.Geometry, ConversionError>,
                       done: seq<Conversion>)
    requires Conversions(frames, convert) == ConversionRun(done, None)
    ensures convert(f).Success? ==> Conversions(frames + [f], convert) == ConversionRun(done + [Conversion(f, convert(f).value)], None)
    ensures convert(f).Failure? ==> Conversions(frames + [f], convert) == ConversionRun(done, Some(f))
  {
    assert (frames + [f])[..|frames|] == frames;
  }

  /** After a raising conversion among the first `j` names, the rest of the listing changes
      nothing. */
  lemma RunEndsAt(inputDir: string, outputDir: string, names: seq<string>, j: nat, existing: set<string>,
                  convert: Frame -> Result<Letterbox.Geometry, ConversionError>)
    requires j <= |names|
    requires Conversions(Pending(Plan(inputDir, outputDir, names[..j]), existing), convert).failed.Some?
    ensures Conversions(Pending(Plan(inputDir, outputDir, names), existing), convert)
         == Conversions(Pending(Plan(inputDir, outputDir, names[..j]), existing), convert)
  {
    var p, q := Plan(inputDir, outputDir, names), Plan(inputDir, outputDir, names[..j]);
    PlanPrefix(inputDir, outputDir, names, j);
    assert p == q + p[|q|..];
    PendingAppend(q, p[|q|..], existing);
    FailureSticks(Pending(q, existing), Pending(p[|q|..], existing), convert);
  }

  /** The plan of a prefix of the listing is a prefix of the plan. */
  lemma {:induction false} PlanPrefix(inputDir: string, outputDir: string, names: seq<string>, j: nat)
    requires j <= |names|
    ensures var p, q := Plan(inputDir, outputDir, names), Plan(inputDir, outputDir, names[..j]);
      |q| <= |p| && p[..|q|] == q
  {
    if j == |names| {
      assert names[..j] == names;
    } else {
      var init := names[..|names| - 1];
      PlanPrefix(inputDir, outputDir, init, j);
      assert init[..j] == names[..j];
    }
  }

  lemma {:induction false} PendingAppend(p: seq<Frame>, q: seq<Frame>, existing: set<string>)
    ensures Pending(p + q, existing) == Pending(p, existing) + Pending(q, existing)
  {
    if q != [] {
      var n := |q| - 1;
      PendingAppend(p, q[..n], existing);
      assert (p + q)[..|p| + n] == p + q[..n];
      assert q == q[..n] + [q[n]];
      PendingStep(q[..n], q[n], existing);
    } else {
      assert p + q == p;
    }
  }

  lemma {:induction false} FailureSticks(xs: seq<Frame>, ys: seq<Frame>,
                                         convert: Frame -> Result<Letterbox.Geometry, ConversionError>)
    requires Conversions(xs, convert).failed.Some?
    ensures Conversions(xs + ys, convert) == Conversions(xs, convert)
  {
    if ys != [] {
      var n := |ys| - 1;
      FailureSticks(xs, ys[..n], convert);
      assert (xs + ys)[..|xs| + n] == xs + ys[..n];
    } else {
      assert xs + ys == xs;
    }
  }

  /** The conversions carried out are the longest prefix of the frames whose conversions succeed,
      each with the geometry its image calls for; a failure names the next frame, whose
      conversion raised, and the frames after it are never converted. */
  lemma {:induction false} ConversionsOutcome(frames: seq<Frame>,
                                               convert: Frame -> Result<Letterbox.Geometry, ConversionError>)
    ensures var r := Conversions(frames, convert);
      && |r.done| <= |frames|
      && (forall k :: 0 <= k < |r.done| ==>
            r.done[k].frame == frames[k] && convert(frames[k]) == Success(r.done[k].geometry))
      && (r.failed.None? <==> |r.done| == |frames|)
      && (r.failed.Some? ==> r.failed.value == frames[|r.done|] && convert(frames[|r.done|]).Failure?)
  {
    if frames != [] {
      var n := |frames| - 1;
      ConversionsOutcome(frames[..n], convert);
    }
  }

  /** A frame's conversion raises exactly when its source cannot be opened, has a zero
      dimension, or is so much wider (more than 1080 times its height) or taller (more than 1920
      times its width) than the canvas that one scaled side is zero pixels; otherwise it is pasted
      with the letterbox geometry of its size, both of whose sides are positive. */
  lemma ConvertFails(f: Frame, sizes: map<string, (nat, nat)>)
    ensures Convert(f, sizes).Failure? <==>
      || f.source !in sizes
      || sizes[f.source].0 == 0 || sizes[f.source].1 == 0
      || Letterbox.TargetWidth * sizes[f.source].1 < sizes[f.source].0
      || Letterbox.TargetHeight * sizes[f.source].0 < sizes[f.source].1
    ensures Convert(f, sizes).Success? ==>
      && Letterbox.Fit(sizes[f.source].0, sizes[f.source].1) == Success(Convert(f, sizes).value)
      && Convert(f, sizes).value.width > 0 && Convert(f, sizes).value.height > 0
  {
    if f.source in sizes && sizes[f.source].0 > 0 && sizes[f.source].1 > 0 {
      ScaledSidesPositive(sizes[f.source].0, sizes[f.source].1);
    }
  }

  /** Both scaled sides are positive exactly when neither side is too long for the other. */
  lemma ScaledSidesPositive(width: nat, height: nat)
    requires width > 0 && height > 0
    ensures var g := Letterbox.Fit(width, height).value;
      g.width > 0 && g.height > 0 <==>
        width <= Letterbox.TargetWidth * height && height <= Letterbox.TargetHeight * width
  {
    var g := Letterbox.Fit(width, height).value;
    if Letterbox.TargetWidth * height <= Letterbox.TargetHeight * width {
      assert g.width == Letterbox.TargetWidth && g.height == Letterbox.TargetWidth * height / width;
      QuotientPositive(Letterbox.TargetWidth * height, width);
    } else {
      assert g.height == Letterbox.TargetHeight && g.width == Letterbox.TargetHeight * width / height;
      QuotientPositive(Letterbox.TargetHeight * width, height);
    }
  }

  lemma QuotientPositive(a: nat, b: nat)
    requires b > 0
    ensures a / b > 0 <==> b <= a
  {
  }

  /** A 1 x 2000 image would be resized to 0 x 1920 pixels, so its conversion raises. */
  lemma SliverFails(src: string, target: string)
    ensures Convert(Frame(src, target), map[src := (1, 2000)]) == Failure(EmptyResize)
  {
    assert Letterbox.Fit(1, 2000).value.width == 0 by {
      ScaledSidesPositive(1, 2000);
    }
  }

  /** One iteration of the loop, on the ghost side. */
  lemma PlanStep(inputDir: string, outputDir: string, names: seq<string>, i: nat)
    requires i < |names|
    ensures var init, name := names[..i], names[i];
      && ImageNames(names[..i + 1]) == ImageNames(init) + (if IsImageName(name) then [name] else [])
      && Plan(inputDir, outputDir, names[..i + 1]) == Plan(inputDir, outputDir, init)
           + (if IsImageName(name)
              then [Frame(PathJoin(inputDir, name), PathJoin(outputDir, FrameName(|ImageNames(init)| + 1)))]
              else [])
  {
    assert names[..i + 1][..i] == names[..i];
  }

  lemma PendingStep(plan: seq<Frame>, f: Frame, existing: set<string>)
    ensures Pending(plan + [f], existing) == Pending(plan, existing) + (if f.target !in existing then [f] else [])
  {
    assert (plan + [f])[..|plan|] == plan;
  }

  // ---------------------------------------------------------------------------------------------

  /** The k-th counted name (from 1), in the given order, becomes `image{k}.jpg`; names that are
      not images take no number. */
  lemma {:induction false} PlanNumbering(inputDir: string, outputDir: string, names: seq<string>)
    ensures var plan := Plan(inputDir, outputDir, names);
      var images := ImageNames(names);
      |plan| == |images| &&
      forall k :: 0 <= k < |plan| ==>
        plan[k] == Frame(PathJoin(inputDir, images[k]), PathJoin(outputDir, FrameName(k + 1)))
  {
    if names != [] {
      var n := |names| - 1;
      var init, name := names[..n], names[n];
      PlanNumbering(inputDir, outputDir, init);
      var plan0, images0 := Plan(inputDir, outputDir, init), ImageNames(init);
      var plan, images := Plan(inputDir, outputDir, names), ImageNames(names);
      if IsImageName(name) {
        var f := Frame(PathJoin(inputDir, name), PathJoin(outputDir, FrameName(|images0| + 1)));
        assert plan == plan0 + [f] && images == images0 + [name];
        forall k | 0 <= k < |plan|
          ensures plan[k] == Frame(PathJoin(inputDir, images[k]), PathJoin(outputDir, FrameName(k + 1)))
        {
          if k < |plan0| {
            assert plan[k] == plan0[k] && images[k] == images0[k];
          }
        }
      } else {
        assert plan == plan0 && images == images0;
      }
    }
  }

  /** The frame names are pairwise different, so no frame is written twice. */
  lemma FrameNamesDistinct(j: nat, k: nat)
    requires j != k
    ensures FrameName(j) != FrameName(k)
  {
    if FrameName(j) == FrameName(k) {
      var a, b := NatToString(j), NatToString(k);
      assert "image" + a + ".jpg" == "image" + b + ".jpg";
      assert a == ("image" + a + ".jpg")[5..5 + |a|];
      if |a| == |b| {
        assert b == ("image" + b + ".jpg")[5..5 + |b|];
      }
      NatToStringValue(j);
      NatToStringValue(k);
    }
  }

  /** An existing output is skipped, yet its source still consumes its number: whether a frame
      is pending depends only on its own target. */
  lemma PendingSkipsExisting(plan: seq<Frame>, existing: set<string>, k: nat)
    requires k < |plan|
    ensures plan[k] in Pending(plan, existing) <==> plan[k].target !in existing
  {
    PendingMembers(plan, existing);
  }

  /** The pending frames are exactly the planned frames whose target is absent. */
  lemma {:induction false} PendingMembers(plan: seq<Frame>, existing: set<string>)
    ensures forall f :: f in Pending(plan, existing) <==> f in plan && f.target !in existing
  {
    if plan != [] {
      var n := |plan| - 1;
      PendingMembers(plan[..n], existing);
      assert plan == plan[..n] + [plan[n]];
    }
  }

  /** The counted names are exactly the listed names that are images. */
  lemma {:induction false} ImageNamesMembers(names: seq<string>)
    ensures forall x :: x in ImageNames(names) <==> x in names && IsImageName(x)
  {
    if names != [] {
      var n := |names| - 1;
      ImageNamesMembers(names[..n]);
      assert names == names[..n] + [names[n]];
    }
  }

  /** Running the preprocessing again, once the outputs exist, converts nothing. */
  lemma PreprocessIdempotent(plan: seq<Frame>, existing: set<string>)
    ensures Pending(plan, existing + Targets(Pending(plan, existing))) == []
  {
    var after := existing + Targets(Pending(plan, existing));
    PendingMembers(plan, existing);
    forall f | f in plan
      ensures f.target in after
    {
      if f.target !in existing {
        assert f in Pending(plan, existing);
      }
    }
    NothingPending(plan, after);
  }

  lemma {:induction false} NothingPending(plan: seq<Frame>, existing: set<string>)
    requires forall f :: f in plan ==> f.target in existing
    ensures Pending(plan, existing) == []
  {
    if plan != [] {
      assert plan[|plan| - 1] in plan;
      NothingPending(plan[..|plan| - 1], existing);
    }
  }
}
