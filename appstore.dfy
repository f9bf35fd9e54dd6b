/** website/images/create_appstore_screenshots.py: scale a screenshot to fit
    the fixed App Store box, centre it on a black canvas of exactly the box's
    size, and name the output file. */
module AppStore {
  import opened Raster
  import opened PathNames

  /** The App Store's required screenshot size (the 6.7-inch display). */
  const AppstoreWidth: nat := 1284
  const AppstoreHeight: nat := 2778

  datatype Size = Size(width: nat, height: nat)

  // ---------------------------------------------------------------------
  // Integer facts about floor division by a positive variable.

  lemma FloorDiv(a: int, d: int)
    requires d > 0
    ensures d * (a / d) <= a < d * (a / d) + d
  {
    assert a == d * (a / d) + a % d;
  }

  lemma DivBelow(a: int, d: int, c: int)
    requires d > 0 && a < c * d
    ensures a / d < c
  {
    FloorDiv(a, d);
  }

  lemma DivAtLeast(a: int, d: int, c: int)
    requires d > 0 && c * d <= a
    ensures c <= a / d
  {
    FloorDiv(a, d);
    MulCancel(c, a / d + 1, d);
  }

  lemma MulCancel(x: int, y: int, d: int)
    requires d > 0 && x * d < y * d
    ensures x < y
  {
  }

  lemma MulLeq(a: int, b: int, m: nat)
    requires a <= b
    ensures a * m <= b * m
  {
  }

  // ---------------------------------------------------------------------
  // Aspect-fit sizing: `create_appstore_screenshot`, before the resize.

  /** The size the screenshot is resized to. The source first scales to the
      full box width; only if the height that gives (truncated) exceeds the
      box does it scale to the full box height instead. The floating-point
      scale factor is taken as the exact ratio and `int()` as truncation. A
      zero width divides by zero in the source and is excluded. */
  function FitSize(w: nat, h: nat): (s: Size)
    requires w > 0
    ensures s.width <= AppstoreWidth && s.height <= AppstoreHeight
    ensures s.width == AppstoreWidth || s.height == AppstoreHeight
  {
    var heightAtFullWidth := h * AppstoreWidth / w;
    if heightAtFullWidth > AppstoreHeight then
      FallbackNarrower(w, h);
      Size(w * AppstoreHeight / h, AppstoreHeight)
    else
      Size(AppstoreWidth, heightAtFullWidth)
  }

  /** When the width-first height overflows, the height-first width is
      strictly narrower than the box (and the source's division by the
      height is defined). */
  lemma FallbackNarrower(w: nat, h: nat)
    requires w > 0 && h * AppstoreWidth / w > AppstoreHeight
    ensures h > 0 && w * AppstoreHeight / h < AppstoreWidth
  {
    FloorDiv(h * AppstoreWidth, w);
    MulLeq(AppstoreHeight + 1, h * AppstoreWidth / w, w);
    assert (AppstoreHeight + 1) * w <= h * AppstoreWidth;
    DivBelow(w * AppstoreHeight, h, AppstoreWidth);
  }

  /** The fallback is taken exactly when the width-first height overflows
      the box, and it is then the only case where the image is narrower
      than the box. */
  lemma FallbackIffOverflow(w: nat, h: nat)
    requires w > 0
    ensures FitSize(w, h).width < AppstoreWidth <==> h * AppstoreWidth / w > AppstoreHeight
    ensures FitSize(w, h).width < AppstoreWidth ==> FitSize(w, h).height == AppstoreHeight
  {
    if h * AppstoreWidth / w > AppstoreHeight {
      FallbackNarrower(w, h);
    }
  }

  /** A side of the fit truncates to 0 exactly when the source is more than
      2778 times taller than wide (the width) or more than 1284 times wider
      than tall (the height); Pillow's resize then refuses the size. */
  lemma FitEmptyIff(w: nat, h: nat)
    requires w > 0
    ensures FitSize(w, h).width == 0 <==> AppstoreHeight * w < h
    ensures FitSize(w, h).height == 0 <==> AppstoreWidth * h < w
    ensures ResizeAccepts(FitSize(w, h).width, FitSize(w, h).height)
            <==> h <= AppstoreHeight * w && w <= AppstoreWidth * h
  {
    if h * AppstoreWidth / w > AppstoreHeight {
      FallbackNarrower(w, h);
      FloorDiv(w * AppstoreHeight, h);
      if AppstoreHeight * w < h {
        DivBelow(w * AppstoreHeight, h, 1);
      } else {
        DivAtLeast(w * AppstoreHeight, h, 1);
      }
      assert AppstoreWidth * h >= w;
    } else {
      if AppstoreHeight * w < h {
        MulLeq(AppstoreHeight * w + 1, h, AppstoreWidth);
        DivAtLeast(h * AppstoreWidth, w, AppstoreHeight + 1);
        assert false;
      }
      if AppstoreWidth * h < w {
        DivBelow(h * AppstoreWidth, w, 1);
      } else {
        DivAtLeast(h * AppstoreWidth, w, 1);
      }
    }
  }

  /** The fitted size keeps the source's aspect ratio up to the truncation of
      one side: the cross products w·new_height and h·new_width differ by less
      than one source width (width-first) or height (fallback). */
  lemma FitKeepsAspect(w: nat, h: nat)
    requires w > 0 && h > 0
    ensures var s := FitSize(w, h);
      && s.width * h - s.height * w < w
      && s.height * w - s.width * h < h
  {
    var s := FitSize(w, h);
    if h * AppstoreWidth / w > AppstoreHeight {
      FallbackNarrower(w, h);
      FloorDiv(w * AppstoreHeight, h);
    } else {
      FloorDiv(h * AppstoreWidth, w);
    }
  }

  /** The fitted size is the largest one: every size inside the box with
      exactly the source's aspect ratio is no wider and no taller. */
  lemma FitIsMaximal(w: nat, h: nat, a: nat, b: nat)
    requires w > 0
    requires a * h == b * w && a <= AppstoreWidth && b <= AppstoreHeight
    ensures a <= FitSize(w, h).width && b <= FitSize(w, h).height
  {
    if h * AppstoreWidth / w > AppstoreHeight {
      FallbackNarrower(w, h);
      MulLeq(b, AppstoreHeight, w);
      DivAtLeast(w * AppstoreHeight, h, a);
    } else {
      MulLeq(a, AppstoreWidth, h);
      DivAtLeast(h * AppstoreWidth, w, b);
    }
  }

  /** The textbook fit: scale by min(W / w, H / h), then truncate. */
  function MinRatioFit(w: nat, h: nat): Size
    requires w > 0 && h > 0
  {
    if AppstoreWidth * h <= AppstoreHeight * w then
      Size(AppstoreWidth, h * AppstoreWidth / w)
    else
      Size(w * AppstoreHeight / h, AppstoreHeight)
  }

  /** The width-first policy agrees with the minimum-ratio fit except when
      H·w < W·h < (H+1)·w: there the minimum ratio is the height's, but the
      truncated width-first height equals H exactly, so the source fills the
      whole box where the minimum-ratio fit would be narrower. */
  lemma FitVersusMinRatio(w: nat, h: nat)
    requires w > 0 && h > 0
    ensures var window := AppstoreHeight * w < AppstoreWidth * h < (AppstoreHeight + 1) * w;
      && (!window ==> FitSize(w, h) == MinRatioFit(w, h))
      && (window ==> FitSize(w, h) == Size(AppstoreWidth, AppstoreHeight)
                     && MinRatioFit(w, h).width == AppstoreWidth - 1)
  {
    FloorDiv(h * AppstoreWidth, w);
    if AppstoreWidth * h <= AppstoreHeight * w {
      DivBelow(h * AppstoreWidth, w, AppstoreHeight + 1);
    } else if AppstoreWidth * h >= (AppstoreHeight + 1) * w {
      DivAtLeast(h * AppstoreWidth, w, AppstoreHeight + 1);
    } else {
      DivBelow(h * AppstoreWidth, w, AppstoreHeight + 1);
      DivAtLeast(h * AppstoreWidth, w, AppstoreHeight);
      assert w <= h;
      assert (AppstoreWidth - 1) * h <= w * AppstoreHeight;
      DivBelow(w * AppstoreHeight, h, AppstoreWidth);
      DivAtLeast(w * AppstoreHeight, h, AppstoreWidth - 1);
    }
  }

  // ---------------------------------------------------------------------
  // Centring: the paste offsets of `create_appstore_screenshot`.

  /** `(outer - inner) // 2`: Python's floor division by 2, which Dafny's
      Euclidean division agrees with for the divisor 2, negative operands
      included. */
  function CenterOffset(outer: int, inner: int): (x: int)
    ensures 2 * x <= outer - inner < 2 * x + 2
  {
    (outer - inner) / 2
  }

  /** A side that fits is placed wholly inside the canvas, with the two bars
      differing by at most one pixel and the far bar never the smaller. */
  lemma CenteredInside(outer: int, inner: int)
    requires 0 <= inner <= outer
    ensures var x := CenterOffset(outer, inner);
      && 0 <= x && x + inner <= outer
      && x <= outer - inner - x <= x + 1
  {
  }

  // ---------------------------------------------------------------------
  // The whole conversion: `create_appstore_screenshot`.

  /** The black 1284 × 2778 canvas of `create_appstore_screenshot` with an
      image that fits the box pasted at the centring offsets: a new canvas
      holding the image there, with no pixel of it clipped, and black
      everywhere else. */
  method Letterbox(fitted: Image<Rgb>) returns (canvas: array2<Rgb>)
    requires fitted.Valid() && fitted.width <= AppstoreWidth && fitted.height <= AppstoreHeight
    ensures fresh(canvas)
    ensures canvas.Length0 == AppstoreWidth && canvas.Length1 == AppstoreHeight
    ensures var x0, y0 := CenterOffset(AppstoreWidth, fitted.width), CenterOffset(AppstoreHeight, fitted.height);
      && (forall x, y :: 0 <= x < AppstoreWidth && 0 <= y < AppstoreHeight ==>
            canvas[x, y] == if Covers(x0, y0, fitted.width, fitted.height, x, y)
                            then fitted.At(x - x0, y - y0) else Black)
      && (forall i, j :: 0 <= i < fitted.width && 0 <= j < fitted.height ==>
            0 <= x0 + i < AppstoreWidth && 0 <= y0 + j < AppstoreHeight
            && canvas[x0 + i, y0 + j] == fitted.At(i, j))
  {
    canvas := new Rgb[AppstoreWidth, AppstoreHeight]((x, y) => Black);
    var x0 := CenterOffset(AppstoreWidth, fitted.width);
    var y0 := CenterOffset(AppstoreHeight, fitted.height);
    CenteredInside(AppstoreWidth, fitted.width);
    CenteredInside(AppstoreHeight, fitted.height);
    Paste(canvas, fitted, x0, y0);
  }

  /** `create_appstore_screenshot` for an image already decoded as RGB.
      When a side of the fit is 0 the resize raises and nothing is saved
      (None). Otherwise the result is a new canvas of exactly 1284 × 2778
      pixels holding the resized screenshot at the centring offsets and
      black everywhere else; no pixel of the resized screenshot is clipped. */
  method CreateAppstoreScreenshot(src: Image<Rgb>, kernel: Kernel<Rgb>) returns (result: Option<array2<Rgb>>)
    requires src.Valid() && src.width > 0
    ensures var s := FitSize(src.width, src.height);
      result.None? <==> !ResizeAccepts(s.width, s.height)
    ensures result.Some? ==> fresh(result.value)
    ensures result.Some? ==>
      var canvas := result.value;
      var s := FitSize(src.width, src.height);
      var x0, y0 := CenterOffset(AppstoreWidth, s.width), CenterOffset(AppstoreHeight, s.height);
      var fitted := Resize(src, s.width, s.height, kernel);
      && canvas.Length0 == AppstoreWidth && canvas.Length1 == AppstoreHeight
      && (forall x, y :: 0 <= x < AppstoreWidth && 0 <= y < AppstoreHeight ==>
            canvas[x, y] == if Covers(x0, y0, s.width, s.height, x, y)
                            then fitted.At(x - x0, y - y0) else Black)
      && (forall i, j :: 0 <= i < s.width && 0 <= j < s.height ==>
            0 <= x0 + i < AppstoreWidth && 0 <= y0 + j < AppstoreHeight
            && canvas[x0 + i, y0 + j] == fitted.At(i, j))
  {
    var s := FitSize(src.width, src.height);
    if !ResizeAccepts(s.width, s.height) {
      return None;
    }
    var fitted := Resize(src, s.width, s.height, kernel);
    var canvas := Letterbox(fitted);
    result := Some(canvas);
  }

  /** A square source, a source with the box's own aspect ratio, a tall one
      that takes the fallback, and one so tall that the fit has no width. */
  lemma FitExamples()
    ensures FitSize(1000, 1000) == Size(1284, 1284)
    ensures CenterOffset(AppstoreWidth, 1284) == 0 && CenterOffset(AppstoreHeight, 1284) == 747
    ensures FitSize(1170, 2532) == Size(1284, 2778)
    ensures CenterOffset(AppstoreWidth, 1284) == 0 && CenterOffset(AppstoreHeight, 2778) == 0
    ensures MinRatioFit(1170, 2532) == Size(1283, 2778)
    ensures FitSize(1000, 3000) == Size(926, 2778) && CenterOffset(AppstoreWidth, 926) == 179
    ensures FitSize(1, 2779) == Size(0, 2778)
  {
  }

  // ---------------------------------------------------------------------
  // Output name: the loop in `main`.

  /** The file name the converted screenshot is saved under: never the
      screenshot's own name, and a `.png` file whose stem is the
      screenshot's stem followed by "-appstore". */
  function AppstoreOutputName(name: string): (out: string)
    ensures out != name
    ensures SplitExt(out) == (Stem(name) + "-appstore", ".png")
  {
    DerivedName(name, "-appstore")
  }

  /** Every screenshot the script lists is a base name without '.' or '/'
      followed by ".PNG"; its output name is the base, the tag and ".png". */
  lemma AppstoreOutputNameOf(base: string)
    requires base != [] && '.' !in base && '/' !in base
    ensures AppstoreOutputName(base + ".PNG") == base + "-appstore.png"
  {
    StemOfSimpleName(base, ".PNG");
    assert base + "-appstore" + ".png" == base + "-appstore.png";
  }
}
