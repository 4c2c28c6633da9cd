/**
 * The geometry of `preprocess_image_if_needed` (utils/video_generator.py): the
 * uniform scale that fits a `width` x `height` image inside the 1080 x 1920
 * canvas, the scaled size and the offsets that centre it. Pixel work (resampling,
 * the black canvas, pasting, saving) is not modelled.
 */
module Letterbox {
  import opened Wrappers

  const TargetWidth := 1080
  const TargetHeight := 1920

  datatype Geometry = Geometry(scale: real, width: int, height: int, pasteX: int, pasteY: int)

  /** The `ZeroDivisionError` of `target / width` for an image with a zero dimension. */
  datatype GeometryError = ZeroDimension

  function Min(a: real, b: real): real {
    if a <= b then a else b
  }

  /** The source's arithmetic, in exact reals; a zero dimension fails the division. Otherwise
      the scaled size is the integer reference `FitIntegral`, fits the canvas and meets it on one
      side, and the offsets centre it to within a pixel. */
  function Fit(width: nat, height: nat): (r: Result<Geometry, GeometryError>)
    ensures r.Success? <==> width > 0 && height > 0
    ensures r.Success? ==> (r.value.width, r.value.height) == FitIntegral(width, height)
    ensures r.Success? ==> var g := r.value;
      && 0 <= g.width <= TargetWidth && 0 <= g.height <= TargetHeight
      && (g.width == TargetWidth || g.height == TargetHeight)
      && g.pasteX >= 0 && g.pasteY >= 0
      && TargetWidth - g.width - 2 * g.pasteX in {0, 1}
      && TargetHeight - g.height - 2 * g.pasteY in {0, 1}
  {
    if width == 0 || height == 0 then Failure(ZeroDimension)
    else
      FitMatchesIntegral(width, height);
      FitWithinCanvas(width, height);
      Success(Scaled(width, height))
  }

  /** The scale factor, scaled size and paste offsets of a non-degenerate image. */
  function Scaled(width: nat, height: nat): Geometry
    requires width > 0 && height > 0
  {
    var widthRatio := TargetWidth as real / width as real;
    var heightRatio := TargetHeight as real / height as real;
    Resized(width, height, Min(widthRatio, heightRatio))
  }

  /** The size and offsets once the scale factor is chosen. The scale is positive, so Python's
      `int()`, which truncates toward zero, is the floor of the scaled side. */
  function Resized(width: nat, height: nat, scale: real): Geometry
    requires scale >= 0.0
  {
    var newWidth := (width as real * scale).Floor;
    var newHeight := (height as real * scale).Floor;
    Geometry(scale, newWidth, newHeight, Centre(TargetWidth, newWidth), Centre(TargetHeight, newHeight))
  }

  /** The offset that centres `size` pixels in `target`: Python's `(target - size) // 2`, which
      floors; for the divisor 2 Dafny's `/` on `int` does the same. */
  function Centre(target: int, size: int): int {
    (target - size) / 2
  }

  /** An integer-only reference: the image is bounded by the canvas width when it is at least as
      wide, relative to the canvas, as it is tall (1080 * h <= 1920 * w), and by the height otherwise. */
  function FitIntegral(width: nat, height: nat): (size: (int, int))
    requires width > 0 && height > 0
  {
    if TargetWidth * height <= TargetHeight * width then (TargetWidth, TargetWidth * height / width)
    else (TargetHeight * width / height, TargetHeight)
  }

  // ---------------------------------------------------------------------------------------------

  /** Flooring an exact quotient of naturals is integer division. */
  lemma FloorOfQuotient(a: nat, b: nat)
    requires b > 0
    ensures (a as real / b as real).Floor == a / b
  {
    var q, r := a / b, a % b;
    assert a == b * q + r;
    assert (a as real) / (b as real) == q as real + (r as real) / (b as real);
    assert 0.0 <= (r as real) / (b as real) < 1.0;
  }

  /** Scaling a side of `n` pixels by `target / d` and truncating is integer division. */
  lemma ScaledSide(n: nat, target: nat, d: nat)
    requires d > 0
    ensures (n as real * (target as real / d as real)).Floor == target * n / d
  {
    assert n as real * (target as real / d as real) == (target * n) as real / d as real;
    FloorOfQuotient(target * n, d);
  }

  /** The scaled size in exact arithmetic agrees with the integer reference. */
  lemma FitMatchesIntegral(width: nat, height: nat)
    requires width > 0 && height > 0
    ensures (Scaled(width, height).width, Scaled(width, height).height) == FitIntegral(width, height)
  {
    if TargetWidth * height <= TargetHeight * width {
      FitWide(width, height);
    } else {
      FitTall(width, height);
    }
  }

  lemma FitWide(width: nat, height: nat)
    requires width > 0 && height > 0 && TargetWidth * height <= TargetHeight * width
    ensures Scaled(width, height).width == TargetWidth
    ensures Scaled(width, height).height == TargetWidth * height / width
  {
    WideScale(width, height);
    WideSize(width, height);
  }

  lemma FitTall(width: nat, height: nat)
    requires width > 0 && height > 0 && TargetHeight * width < TargetWidth * height
    ensures Scaled(width, height).width == TargetHeight * width / height
    ensures Scaled(width, height).height == TargetHeight
  {
    TallScale(width, height);
    TallSize(width, height);
  }

  /** A relatively wide image is scaled by the width ratio. */
  lemma WideScale(width: nat, height: nat)
    requires width > 0 && height > 0 && TargetWidth * height <= TargetHeight * width
    ensures Scaled(width, height) == Resized(width, height, TargetWidth as real / width as real)
  {
    QuotientOrder(1080.0, 1920.0, width as real, height as real);
  }

  /** A relatively tall image is scaled by the height ratio. */
  lemma TallScale(width: nat, height: nat)
    requires width > 0 && height > 0 && TargetHeight * width < TargetWidth * height
    ensures Scaled(width, height) == Resized(width, height, TargetHeight as real / height as real)
  {
    QuotientOrder(1920.0, 1080.0, height as real, width as real);
    RatiosDiffer(width, height);
  }

  /** The sizes at the width ratio: the full width, and the height scaled with it. */
  lemma WideSize(width: nat, height: nat)
    requires width > 0
    ensures Resized(width, height, TargetWidth as real / width as real).width == TargetWidth
    ensures Resized(width, height, TargetWidth as real / width as real).height == TargetWidth * height / width
  {
    SidesAtRatio(height, width, TargetWidth);
  }

  /** The sizes at the height ratio: the width scaled with it, and the full height. */
  lemma TallSize(width: nat, height: nat)
    requires height > 0
    ensures Resized(width, height, TargetHeight as real / height as real).width == TargetHeight * width / height
    ensures Resized(width, height, TargetHeight as real / height as real).height == TargetHeight
  {
    SidesAtRatio(width, height, TargetHeight);
  }

  /** At the ratio `t / d`, a side of `d` pixels becomes `t` and a side of `n` becomes `t * n / d`. */
  lemma SidesAtRatio(n: nat, d: nat, t: nat)
    requires d > 0
    ensures (n as real * (t as real / d as real)).Floor == t * n / d
    ensures (d as real * (t as real / d as real)).Floor == t
  {
    ScaledSide(n, t, d);
    Cancel(t, d);
  }

  lemma Cancel(target: nat, d: nat)
    requires d > 0
    ensures (d as real * (target as real / d as real)).Floor == target
  {
    assert d as real * (target as real / d as real) == target as real;
  }

  lemma RatiosDiffer(width: nat, height: nat)
    requires width > 0 && height > 0 && TargetHeight * width < TargetWidth * height
    ensures TargetWidth as real / width as real != TargetHeight as real / height as real
  {
  }

  /** The scaled image fits the canvas, touches it on one side, and the paste offsets are
      non-negative and centre it to within one pixel. */
  lemma FitWithinCanvas(width: nat, height: nat)
    requires width > 0 && height > 0
    ensures var g := Scaled(width, height);
      && 0 <= g.width <= TargetWidth && 0 <= g.height <= TargetHeight
      && (g.width == TargetWidth || g.height == TargetHeight)
      && g.pasteX >= 0 && g.pasteY >= 0
      && TargetWidth - g.width - 2 * g.pasteX in {0, 1}
      && TargetHeight - g.height - 2 * g.pasteY in {0, 1}
  {
    FitMatchesIntegral(width, height);
    if TargetWidth * height <= TargetHeight * width {
      assert TargetWidth * height / width <= TargetHeight by {
        DivBound(TargetWidth * height, width, TargetHeight);
      }
    } else {
      assert TargetHeight * width / height <= TargetWidth by {
        DivBound(TargetHeight * width, height, TargetWidth);
      }
    }
  }

  lemma DivBound(a: nat, b: nat, c: nat)
    requires b > 0 && a <= c * b
    ensures a / b <= c
  {
  }

  /** Comparing two ratios with positive denominators by cross-multiplying. */
  lemma QuotientOrder(p: real, q: real, w: real, h: real)
    requires w > 0.0 && h > 0.0 && p * h <= q * w
    ensures p / w <= q / h
  {
    assert p / w == (p * h) / (w * h);
    assert q / h == (q * w) / (w * h);
  }

  /** A 1000 x 1000 image is scaled by 1.08 to 1080 x 1080 and pasted 420 pixels down. */
  lemma FitSquareExample()
    ensures Fit(1000, 1000) == Success(Geometry(1.08, 1080, 1080, 0, 420))
  {
    assert Scaled(1000, 1000) == Resized(1000, 1000, 1.08);
  }
}
